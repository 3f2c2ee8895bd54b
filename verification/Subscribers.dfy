/** The table of baselines, capped by least recent use. */
module Subscribers {
  import opened Wrappers
  import opened FrameDelta

  const MAX_SUBSCRIBERS := 8

  // What the table means: the subscribers it remembers, most recent first, and a baseline for each

  datatype Table = Table(recent: seq<string>, kept: map<string, Baseline>)

  const EMPTY_TABLE: Table := Table([], map[])

  function Without(names: seq<string>, name: string): (r: seq<string>)
    ensures |r| <= |names|
    ensures forall other :: other in r <==> other in names && other != name
  {
    if names == [] then []
    else
      var before := Without(names[..|names| - 1], name);
      if names[|names| - 1] == name then before else before + [names[|names| - 1]]
  }

  function FirstFew(names: seq<string>, n: nat): seq<string> {
    if |names| <= n then names else names[..n]
  }

  /** `name` moves to the front; the ninth is forgotten. */
  function Remembered(recent: seq<string>, name: string): seq<string> {
    FirstFew([name] + Without(recent, name), MAX_SUBSCRIBERS)
  }

  /** A baseline but for its time stamp. */
  function Unstamped(baseline: Baseline): Baseline {
    baseline.(lastUsed := 0)
  }

  function Unstamp(baselines: map<string, Baseline>): (kept: map<string, Baseline>)
    ensures kept.Keys == baselines.Keys
    ensures forall name | name in baselines :: kept[name] == Unstamped(baselines[name])
  {
    map name | name in baselines :: Unstamped(baselines[name])
  }

  function Restricted(kept: map<string, Baseline>, names: seq<string>): map<string, Baseline> {
    map name | name in kept && name in names :: kept[name]
  }

  function Recorded(table: Table, name: string, baseline: Baseline): Table {
    var recent := Remembered(table.recent, name);
    Table(recent, Restricted(table.kept, recent)[name := Unstamped(baseline)])
  }

  function Lookup(table: Table, name: string): Option<Baseline> {
    if name in table.kept then Some(table.kept[name]) else None
  }

  // What a history of records leaves behind

  datatype Record = Record(name: string, baseline: Baseline)

  function TableAfter(history: seq<Record>): Table {
    if history == [] then EMPTY_TABLE
    else
      var last := history[|history| - 1];
      Recorded(TableAfter(history[..|history| - 1]), last.name, last.baseline)
  }

  /** The distinct subscribers of a history, most recently recorded first. */
  function ByRecency(history: seq<Record>): seq<string> {
    if history == [] then []
    else
      var last := history[|history| - 1].name;
      [last] + Without(ByRecency(history[..|history| - 1]), last)
  }

  /** The last baseline recorded for `name`. */
  function Latest(history: seq<Record>, name: string): Option<Baseline> {
    if history == [] then None
    else if history[|history| - 1].name == name then Some(Unstamped(history[|history| - 1].baseline))
    else Latest(history[..|history| - 1], name)
  }

  ghost predicate Distinct(names: seq<string>) {
    forall i, j | 0 <= i < j < |names| :: names[i] != names[j]
  }

  lemma {:induction false} WithoutIsDistinct(names: seq<string>, name: string)
    requires Distinct(names)
    ensures Distinct(Without(names, name))
    decreases |names|
  {
    if names != [] {
      var init, last := names[..|names| - 1], names[|names| - 1];
      WithoutIsDistinct(init, name);
      var r := Without(init, name);
      forall i | 0 <= i < |r| ensures r[i] != last {
        assert r[i] in r;
      }
    }
  }

  /** Forgetting all but a few first, or afterwards, makes no difference. */
  lemma {:induction false} FewWithout(names: seq<string>, name: string, n: nat)
    requires Distinct(names) && n > 0
    ensures FirstFew([name] + Without(FirstFew(names, n), name), n) == FirstFew([name] + Without(names, name), n)
    decreases |names|
  {
    if |names| > n {
      var init, last := names[..|names| - 1], names[|names| - 1];
      FewWithout(init, name, n);
      assert FirstFew(names, n) == FirstFew(init, n);
      EnoughWithout(init, name);
    }
  }

  lemma {:induction false} EnoughWithout(names: seq<string>, name: string)
    requires Distinct(names)
    ensures |Without(names, name)| >= |names| - 1
    ensures name !in names ==> Without(names, name) == names
    decreases |names|
  {
    if names != [] {
      var init, last := names[..|names| - 1], names[|names| - 1];
      EnoughWithout(init, name);
      assert names == init + [last];
    }
  }

  lemma {:induction false} ByRecencyIsDistinct(history: seq<Record>)
    ensures Distinct(ByRecency(history))
    ensures forall name :: name in ByRecency(history) <==> Latest(history, name).Some?
    decreases |history|
  {
    if history != [] {
      var init := history[..|history| - 1];
      ByRecencyIsDistinct(init);
      var last := history[|history| - 1].name;
      WithoutIsDistinct(ByRecency(init), last);
      var r := Without(ByRecency(init), last);
      forall i | 0 <= i < |r| ensures r[i] != last {
        assert r[i] in r;
      }
    }
  }

  /** The table holds exactly the latest baselines of the at most eight most recently recorded subscribers. */
  lemma {:induction false} TableHoldsTheMostRecent(history: seq<Record>)
    ensures var table := TableAfter(history);
            && table.recent == FirstFew(ByRecency(history), MAX_SUBSCRIBERS)
            && (forall name :: name in table.kept <==> name in table.recent)
            && (forall name | name in table.kept :: Latest(history, name) == Some(table.kept[name]))
    decreases |history|
  {
    if history != [] {
      var init, name := history[..|history| - 1], history[|history| - 1].name;
      TableHoldsTheMostRecent(init);
      ByRecencyIsDistinct(init);
      FewWithout(ByRecency(init), name, MAX_SUBSCRIBERS);
      assert Remembered(TableAfter(init).recent, name)[0] == name;
    }
  }

  // Least recent use, from the history alone

  function Names(history: seq<Record>): set<string> {
    set record | record in history :: record.name
  }

  /** Record `i` is the last of its subscriber. */
  ghost predicate LastRecord(history: seq<Record>, i: nat) {
    i < |history| && forall j | i < j < |history| :: history[j].name != history[i].name
  }

  /** `names[k]` is `name`, and what stands before it are just `others`. */
  ghost predicate StandsBehind(names: seq<string>, k: nat, name: string, others: set<string>) {
    k < |names| && names[k] == name && forall other :: other in names[..k] <==> other in others
  }

  lemma {:induction false} StillBehind(names: seq<string>, gone: string, k: nat, others: set<string>)
      returns (at: nat)
    requires Distinct(names) && k < |names| && names[k] != gone && StandsBehind(names, k, names[k], others)
    ensures StandsBehind(Without(names, gone), at, names[k], others - {gone})
    decreases |names|
  {
    var n := |names| - 1;
    var init, last := names[..n], names[n];
    if k < n {
      assert init[..k] == names[..k];
      at := StillBehind(init, gone, k, others);
      assert Without(names, gone)[..at] == Without(init, gone)[..at];
    } else {
      assert names[..k] == init;
      at := |Without(init, gone)|;
      assert Without(names, gone)[..at] == Without(init, gone);
    }
  }

  /** In the order of recency a subscriber stands behind just those recorded after it. */
  lemma {:induction false} RankByRecency(history: seq<Record>, i: nat) returns (k: nat)
    requires LastRecord(history, i)
    ensures StandsBehind(ByRecency(history), k, history[i].name, Names(history[i + 1..]))
    decreases |history|
  {
    var n := |history| - 1;
    var init, last := history[..n], history[n].name;
    if i == n {
      k := 0;
    } else {
      var before := RankByRecency(init, i);
      ByRecencyIsDistinct(init);
      var at := StillBehind(ByRecency(init), last, before, Names(init[i + 1..]));
      k := at + 1;
      var rest := Without(ByRecency(init), last);
      assert ByRecency(history)[..k] == [last] + rest[..at];
      assert history[i + 1..] == init[i + 1..] + [history[n]];
    }
  }

  lemma {:induction false} DistinctCount(names: seq<string>, all: set<string>)
    requires Distinct(names) && forall name :: name in names <==> name in all
    ensures |all| == |names|
    decreases |names|
  {
    if names == [] {
      assert all == {};
    } else {
      var init, last := names[..|names| - 1], names[|names| - 1];
      assert names == init + [last];
      forall name ensures name in init <==> name in all - {last} {
        assert name in init ==> name in names;
        assert name in names && name != last ==> name in init;
      }
      DistinctCount(init, all - {last});
    }
  }

  /** A subscriber's baseline is kept, as it was last recorded, exactly if fewer than eight others have been recorded
      since; and no one else has one. */
  lemma KeptExactly(history: seq<Record>, i: nat)
    requires LastRecord(history, i)
    ensures var kept, record := TableAfter(history).kept, history[i];
            && (record.name in kept <==> |Names(history[i + 1..])| < 8)
            && (record.name in kept ==>
                  kept[record.name].geometry == record.baseline.geometry &&
                  kept[record.name].hashes == record.baseline.hashes)
  {
    var names, name := ByRecency(history), history[i].name;
    var k := RankByRecency(history, i);
    ByRecencyIsDistinct(history);
    DistinctCount(names[..k], Names(history[i + 1..]));
    TableHoldsTheMostRecent(history);
    InFront(names, k, 8);
    LatestIs(history, i);
  }

  lemma InFront(names: seq<string>, k: nat, n: nat)
    requires Distinct(names) && k < |names|
    ensures names[k] in FirstFew(names, n) <==> k < n
  {
    var few := FirstFew(names, n);
    if names[k] in few {
      var j :| 0 <= j < |few| && few[j] == names[k];
      assert j == k;
    }
  }

  lemma {:induction false} LatestIs(history: seq<Record>, i: nat)
    requires LastRecord(history, i)
    ensures Latest(history, history[i].name) == Some(Unstamped(history[i].baseline))
    decreases |history|
  {
    if i < |history| - 1 {
      LatestIs(history[..|history| - 1], i);
    }
  }

  lemma {:induction false} OnlyRecorded(history: seq<Record>, name: string)
    requires name in TableAfter(history).kept
    ensures exists i: nat :: LastRecord(history, i) && history[i].name == name
  {
    TableHoldsTheMostRecent(history);
    var i := LatestAt(history, name);
  }

  lemma {:induction false} LatestAt(history: seq<Record>, name: string) returns (i: nat)
    requires Latest(history, name).Some?
    ensures LastRecord(history, i) && history[i].name == name
    decreases |history|
  {
    i := |history| - 1;
    if history[i].name != name {
      i := LatestAt(history[..i], name);
    }
  }

  // Time stamps

  /** Stamps fall strictly along `names`. */
  ghost predicate Descending(baselines: map<string, Baseline>, names: seq<string>) {
    names == [] ||
    (var init, last := names[..|names| - 1], names[|names| - 1];
     && Descending(baselines, init) && last in baselines
     && forall name | name in init :: name in baselines && baselines[last].lastUsed < baselines[name].lastUsed)
  }

  /** `recent` lists the table by falling stamp, none of them later than `tick`. */
  ghost predicate Stamped(baselines: map<string, Baseline>, recent: seq<string>, tick: nat) {
    && Descending(baselines, recent) && |recent| == |baselines|
    && (forall name :: name in baselines <==> name in recent)
    && (forall name | name in baselines :: baselines[name].lastUsed <= tick)
  }

  lemma DescendingNext(baselines: map<string, Baseline>, names: seq<string>, last: string)
    requires Descending(baselines, names) && last in baselines
    requires forall name | name in names :: name in baselines && baselines[last].lastUsed < baselines[name].lastUsed
    ensures Descending(baselines, names + [last])
  {
    assert (names + [last])[..|names|] == names;
  }

  lemma {:induction false} DescendingStays(baselines: map<string, Baseline>, names: seq<string>, name: string)
    requires Descending(baselines, names)
    ensures Descending(baselines, Without(names, name))
    decreases |names|
  {
    if names != [] {
      var init, last := names[..|names| - 1], names[|names| - 1];
      DescendingStays(baselines, init, name);
      DescendingNext(baselines, Without(init, name), last);
    }
  }

  lemma LastIsOnce(baselines: map<string, Baseline>, names: seq<string>)
    requires Descending(baselines, names) && |names| > 0
    ensures names[|names| - 1] !in names[..|names| - 1]
  {
  }

  lemma {:induction false} OneLess(baselines: map<string, Baseline>, names: seq<string>, name: string)
    requires Descending(baselines, names)
    ensures |Without(names, name)| == if name in names then |names| - 1 else |names|
    decreases |names|
  {
    if names != [] {
      var init, last := names[..|names| - 1], names[|names| - 1];
      assert names == init + [last];
      assert name in names <==> name in init || name == last;
      LastIsOnce(baselines, names);
      OneLess(baselines, init, name);
    }
  }

  lemma DescendingWithout(baselines: map<string, Baseline>, names: seq<string>, name: string)
    requires Descending(baselines, names)
    ensures Descending(baselines, Without(names, name))
    ensures |Without(names, name)| == if name in names then |names| - 1 else |names|
  {
    DescendingStays(baselines, names, name);
    OneLess(baselines, names, name);
  }

  /** Only the stamps of the names listed matter. */
  lemma {:induction false} DescendingElsewhere(a: map<string, Baseline>, b: map<string, Baseline>, names: seq<string>)
    requires Descending(a, names)
    requires forall name | name in names :: name in b && (name in a ==> b[name] == a[name])
    ensures Descending(b, names)
    decreases |names|
  {
    if names != [] {
      var init, last := names[..|names| - 1], names[|names| - 1];
      assert forall name | name in init :: name in names;
      assert last in names;
      DescendingElsewhere(a, b, init);
    }
  }

  lemma {:induction false} DescendingFront(baselines: map<string, Baseline>, name: string, names: seq<string>)
    requires Descending(baselines, names) && name in baselines
    requires forall other | other in names :: other in baselines && baselines[other].lastUsed < baselines[name].lastUsed
    ensures Descending(baselines, [name] + names)
    decreases |names|
  {
    var all := [name] + names;
    if names == [] {
      assert all[..|all| - 1] == [];
    } else {
      var init, last := names[..|names| - 1], names[|names| - 1];
      assert forall other | other in init :: other in names;
      assert last in names;
      DescendingFront(baselines, name, init);
      assert all[..|all| - 1] == [name] + init;
    }
  }

  lemma StampedWithout(baselines: map<string, Baseline>, recent: seq<string>, tick: nat, name: string)
    requires Stamped(baselines, recent, tick)
    ensures Stamped(baselines - {name}, Without(recent, name), tick)
  {
    var rest := baselines - {name};
    DescendingWithout(baselines, recent, name);
    DescendingElsewhere(baselines, rest, Without(recent, name));
    assert rest.Keys == baselines.Keys - {name};
    assert |rest| == |rest.Keys| && |baselines| == |baselines.Keys|;
  }

  lemma StampedFront(baselines: map<string, Baseline>, recent: seq<string>, tick: nat, name: string, stamped: Baseline)
    requires Stamped(baselines, recent, tick) && name !in baselines && stamped.lastUsed == tick + 1
    ensures Stamped(baselines[name := stamped], [name] + recent, tick + 1)
  {
    var after := baselines[name := stamped];
    DescendingElsewhere(baselines, after, recent);
    DescendingFront(after, name, recent);
    assert after.Keys == baselines.Keys + {name};
    assert |after| == |after.Keys| && |baselines| == |baselines.Keys|;
  }

  lemma StampedInsert(baselines: map<string, Baseline>, recent: seq<string>, tick: nat, name: string, stamped: Baseline)
    requires Stamped(baselines, recent, tick) && stamped.lastUsed == tick + 1
    ensures Stamped(baselines[name := stamped], [name] + Without(recent, name), tick + 1)
  {
    StampedWithout(baselines, recent, tick, name);
    StampedFront(baselines - {name}, Without(recent, name), tick, name, stamped);
    assert (baselines - {name})[name := stamped] == baselines[name := stamped];
  }

  /** The smallest stamp is the last one listed. */
  lemma OldestIsLast(baselines: map<string, Baseline>, recent: seq<string>, tick: nat, oldest: string)
    requires Stamped(baselines, recent, tick) && oldest in baselines
    requires forall name | name in baselines :: baselines[oldest].lastUsed <= baselines[name].lastUsed
    ensures |recent| > 0 && recent[|recent| - 1] == oldest && Without(recent, oldest) == recent[..|recent| - 1]
  {
    var init, last := recent[..|recent| - 1], recent[|recent| - 1];
    assert last in recent;
    assert recent == init + [last];
    assert oldest in init || oldest == last;
    EnoughAsIs(init, oldest);
  }

  lemma {:induction false} EnoughAsIs(names: seq<string>, name: string)
    ensures name !in names ==> Without(names, name) == names
    decreases |names|
  {
    if names != [] {
      EnoughAsIs(names[..|names| - 1], name);
    }
  }

  // What recording does to the stamped table is what recording means

  lemma KeptAll(baselines: map<string, Baseline>, names: seq<string>, name: string, stamped: Baseline)
    requires forall other | other in baselines && other != name :: other in names
    ensures Unstamp(baselines[name := stamped]) == Restricted(Unstamp(baselines), names)[name := Unstamped(stamped)]
  {
  }

  /** With room for one more, or for a known subscriber, nothing is forgotten. */
  lemma RecordedWithRoom(baselines: map<string, Baseline>, recent: seq<string>, tick: nat, name: string,
      stamped: Baseline)
    requires Stamped(baselines, recent, tick) && |recent| <= MAX_SUBSCRIBERS
    requires name in baselines || |recent| < MAX_SUBSCRIBERS
    ensures Table([name] + Without(recent, name), Unstamp(baselines[name := stamped])) ==
            Recorded(Table(recent, Unstamp(baselines)), name, stamped)
  {
    DescendingWithout(baselines, recent, name);
    var all := [name] + Without(recent, name);
    assert all == Remembered(recent, name);
    KeptAll(baselines, all, name, stamped);
  }

  lemma RestrictedPast(baselines: map<string, Baseline>, gone: string, names: seq<string>)
    requires gone !in names
    ensures Restricted(Unstamp(baselines - {gone}), names) == Restricted(Unstamp(baselines), names)
  {
  }

  /** Making room first, and recording then, is recording in a full table. */
  lemma RecordedInFull(baselines: map<string, Baseline>, recent: seq<string>, tick: nat, name: string,
      stamped: Baseline)
    requires Stamped(baselines, recent, tick) && |recent| == MAX_SUBSCRIBERS && name !in baselines
    ensures var oldest := recent[|recent| - 1];
            Recorded(Table(recent[..|recent| - 1], Unstamp(baselines - {oldest})), name, stamped) ==
            Recorded(Table(recent, Unstamp(baselines)), name, stamped)
  {
    var stay, oldest := recent[..|recent| - 1], recent[|recent| - 1];
    assert name !in recent;
    EnoughAsIs(recent, name);
    EnoughAsIs(stay, name);
    assert [name] + stay == Remembered(recent, name) == Remembered(stay, name);
    LastIsOnce(baselines, recent);
    assert oldest in recent;
    RestrictedPast(baselines, oldest, [name] + stay);
  }

  class FrameSubscribers {
    var tick: nat
    var baselines: map<string, Baseline>
    ghost var recent: seq<string>

    ghost predicate Valid()
      reads this
    {
      Stamped(baselines, recent, tick) && |recent| <= MAX_SUBSCRIBERS
    }

    ghost function Contents(): Table
      reads this
    {
      Table(recent, Unstamp(baselines))
    }

    constructor ()
      ensures Valid() && Contents() == EMPTY_TABLE
    {
      tick, baselines, recent := 0, map[], [];
    }

    /** The subscriber with the smallest stamp. */
    method Oldest() returns (oldest: string)
      requires |baselines| > 0
      ensures oldest in baselines
      ensures forall name | name in baselines :: baselines[oldest].lastUsed <= baselines[name].lastUsed
    {
      var names := baselines.Keys;
      assert |names| == |baselines|;
      oldest :| oldest in names;
      names := names - {oldest};
      while names != {}
        invariant names <= baselines.Keys && oldest in baselines
        invariant forall name | name in baselines && name !in names ::
                  baselines[oldest].lastUsed <= baselines[name].lastUsed
        decreases |names|
      {
        var name :| name in names;
        if baselines[name].lastUsed < baselines[oldest].lastUsed {
          oldest := name;
        }
        names := names - {name};
      }
    }

    /** Forgets the least recently used subscriber. */
    method MakeRoom()
      requires Valid() && |recent| == MAX_SUBSCRIBERS
      modifies this
      ensures Valid() && tick == old(tick) && recent == old(recent[..|recent| - 1])
      ensures baselines == old(baselines - {recent[|recent| - 1]})
    {
      var oldest := Oldest();
      OldestIsLast(baselines, recent, tick, oldest);
      StampedWithout(baselines, recent, tick, oldest);
      baselines := baselines - {oldest};
      recent := recent[..|recent| - 1];
    }

    method Insert(name: string, baseline: Baseline)
      requires Valid() && (name in baselines || |recent| < MAX_SUBSCRIBERS)
      modifies this
      ensures Valid() && Contents() == Recorded(old(Contents()), name, baseline)
    {
      var stamped := baseline.(lastUsed := tick + 1);
      RecordedWithRoom(baselines, recent, tick, name, stamped);
      StampedInsert(baselines, recent, tick, name, stamped);
      tick := tick + 1;
      baselines := baselines[name := stamped];
      recent := [name] + Without(recent, name);
    }

    /** Keeps `baseline` for `name`, forgetting the least recently used subscriber when a ninth comes. */
    method Record(name: string, baseline: Baseline)
      requires Valid()
      modifies this
      ensures Valid() && Contents() == Recorded(old(Contents()), name, baseline)
    {
      if name !in baselines && |baselines| >= MAX_SUBSCRIBERS {
        RecordedInFull(baselines, recent, tick, name, baseline);
        MakeRoom();
      }
      Insert(name, baseline);
    }
  }
}
