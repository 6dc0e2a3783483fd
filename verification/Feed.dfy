/** The activity feed, `dashboard_activity` of `backend/app/api/routes/dashboard.py`:
    each source contributes its newest `limit` rows, the pieces are concatenated,
    sorted by printed time stamp and cut to `limit`. */
module Feed {
  import opened Wrappers
  import opened Numbers
  import opened IsoTime
  import opened StableSort

  /** A row as a source lists it; only a pipeline run may lack a time. */
  datatype Row = Row(time: Option<Time>, payload: int)

  /** An entry of the feed. `at` is the moment its time stamp prints: the row's
      time, or the clock's when the row has none. */
  datatype Item = Item(dated: bool, at: Time, payload: int) {
    function Timestamp(): string {
      Iso(at)
    }
  }

  function Show(row: Row, reading: Time): Item {
    Item(row.time.Some?, if row.time.Some? then row.time.value else reading, row.payload)
  }

  /** A source in the order of `ORDER BY created_at DESC`: newest first, rows
      without a time before all others, ties in any order. */
  predicate NewestFirst(rows: seq<Row>) {
    forall i, j :: 0 <= i < j < |rows| ==>
      (rows[i].time.Some? ==> rows[j].time.Some? && Micros(rows[i].time.value) >= Micros(rows[j].time.value))
  }

  /** A source together with the clock reading each undated row would get. */
  datatype Source = Source(rows: seq<Row>, readings: seq<Time>)

  predicate Listed(s: Source) {
    NewestFirst(s.rows) && |s.readings| == |s.rows|
  }

  function Shown(s: Source, from: nat, upTo: nat): (items: seq<Item>)
    requires |s.readings| == |s.rows| && from <= upTo <= |s.rows|
    ensures |items| == upTo - from
  {
    seq(upTo - from, i requires 0 <= i < upTo - from => Show(s.rows[from + i], s.readings[from + i]))
  }

  /** What `_recent_*` returns. */
  function Recent(s: Source, limit: nat): seq<Item>
    requires |s.readings| == |s.rows|
  {
    Shown(s, 0, Min(limit, |s.rows|))
  }

  function Dated(items: seq<Item>): seq<Item> {
    if items == [] then [] else (if items[0].dated then [items[0]] else []) + Dated(items[1..])
  }

  /** The dated rows that the limit on the source keeps from the merge. */
  function Dropped(s: Source, limit: nat): seq<Item>
    requires |s.readings| == |s.rows|
  {
    Dated(Shown(s, Min(limit, |s.rows|), |s.rows|))
  }

  predicate AllListed(sources: seq<Source>) {
    forall i :: 0 <= i < |sources| ==> Listed(sources[i])
  }

  function Candidates(sources: seq<Source>, limit: nat): seq<Item>
    requires AllListed(sources)
  {
    if sources == [] then []
    else
      Candidates(sources[..|sources| - 1], limit) + Recent(sources[|sources| - 1], limit)
  }

  function AllDropped(sources: seq<Source>, limit: nat): seq<Item>
    requires AllListed(sources)
  {
    if sources == [] then []
    else
      AllDropped(sources[..|sources| - 1], limit) + Dropped(sources[|sources| - 1], limit)
  }

  // ------------------------------------------------------------------- sorting

  /** `items.sort(key=timestamp, reverse=True)`: an item goes before those whose
      stamp, as a string, is less than its own. */
  function InsertByStamp(item: Item, sorted: seq<Item>): seq<Item> {
    if sorted == [] then [item]
    else if StringLess(sorted[0].Timestamp(), item.Timestamp()) then [item] + sorted
    else [sorted[0]] + InsertByStamp(item, sorted[1..])
  }

  function SortByStamp(items: seq<Item>): seq<Item> {
    if items == [] then [] else InsertByStamp(items[|items| - 1], SortByStamp(items[..|items| - 1]))
  }

  function KeyedBy(item: Item): Keyed<Item> {
    Keyed(Micros(item.at), item)
  }

  /** The items with their place on the calendar. */
  function OnCalendar(items: seq<Item>): (k: seq<Keyed<Item>>)
    ensures |k| == |items|
    ensures forall i :: 0 <= i < |items| ==> k[i] == KeyedBy(items[i])
  {
    seq(|items|, i requires 0 <= i < |items| => KeyedBy(items[i]))
  }

  lemma StampsCompareAsTimes(a: Item, b: Item)
    ensures StringLess(a.Timestamp(), b.Timestamp()) <==> KeyedBy(a).key < KeyedBy(b).key
  {
    IsoOrder(a.at, b.at);
  }

  lemma OnCalendarCons(x: Item, items: seq<Item>)
    ensures OnCalendar([x] + items) == [KeyedBy(x)] + OnCalendar(items)
  {
  }

  lemma OnCalendarSnoc(items: seq<Item>)
    requires items != []
    ensures OnCalendar(items) == OnCalendar(items[..|items| - 1]) + [KeyedBy(items[|items| - 1])]
  {
  }

  lemma {:induction false} InsertByStampIsInsert(item: Item, sorted: seq<Item>)
    ensures OnCalendar(InsertByStamp(item, sorted)) == Insert(KeyedBy(item), OnCalendar(sorted))
  {
    if sorted == [] {
      OnCalendarCons(item, []);
      assert [item] + [] == [item];
    } else {
      var head, tail := sorted[0], sorted[1..];
      StampsCompareAsTimes(head, item);
      assert OnCalendar(sorted)[1..] == OnCalendar(tail);
      OnCalendarCons(item, sorted);
      OnCalendarCons(head, InsertByStamp(item, tail));
      InsertByStampIsInsert(item, tail);
    }
  }

  /** Sorting by the printed stamps is sorting by the calendar. */
  lemma {:induction false} SortByStampIsSort(items: seq<Item>)
    ensures OnCalendar(SortByStamp(items)) == Sort(OnCalendar(items))
  {
    if items != [] {
      var front, last := items[..|items| - 1], items[|items| - 1];
      SortByStampIsSort(front);
      OnCalendarSnoc(items);
      calc {
        OnCalendar(SortByStamp(items));
        OnCalendar(InsertByStamp(last, SortByStamp(front)));
        { InsertByStampIsInsert(last, SortByStamp(front)); }
        Insert(KeyedBy(last), OnCalendar(SortByStamp(front)));
        Insert(KeyedBy(last), Sort(OnCalendar(front)));
        { SortAppend(OnCalendar(front), KeyedBy(last)); }
        Sort(OnCalendar(items));
      }
    }
  }

  function Feed(sources: seq<Source>, limit: nat): seq<Item>
    requires AllListed(sources)
  {
    var sorted := SortByStamp(Candidates(sources, limit));
    sorted[..Min(limit, |sorted|)]
  }

  /** The six sources, in the order the route asks them. */
  datatype Sources = Sources(alerts: Source, assets: Source, models: Source, runs: Source, streams: Source,
                             incidents: Source) {
    function List(): seq<Source> {
      [alerts, assets, models, runs, streams, incidents]
    }
  }

  method DashboardActivity(s: Sources, limit: nat) returns (feed: seq<Item>)
    requires AllListed(s.List())
    ensures feed == Feed([s.alerts, s.assets, s.models, s.runs, s.streams, s.incidents], limit)
  {
    SixSources(s, limit);
    var items: seq<Item> := [];
    items := items + Recent(s.alerts, limit);
    items := items + Recent(s.assets, limit);
    items := items + Recent(s.models, limit);
    items := items + Recent(s.runs, limit);
    items := items + Recent(s.streams, limit);
    items := items + Recent(s.incidents, limit);
    items := SortByStamp(items);
    feed := items[..Min(limit, |items|)];
  }

  lemma SixSources(s: Sources, limit: nat)
    requires AllListed(s.List())
    ensures Listed(s.alerts) && Listed(s.assets) && Listed(s.models) && Listed(s.runs) && Listed(s.streams)
      && Listed(s.incidents)
    ensures Candidates(s.List(), limit)
      == [] + Recent(s.alerts, limit) + Recent(s.assets, limit) + Recent(s.models, limit)
         + Recent(s.runs, limit) + Recent(s.streams, limit) + Recent(s.incidents, limit)
  {
    var list := s.List();
    assert Listed(list[0]) && Listed(list[1]) && Listed(list[2]) && Listed(list[3]) && Listed(list[4])
      && Listed(list[5]);
    Grow(list, 0, limit);
    Grow(list, 1, limit);
    Grow(list, 2, limit);
    Grow(list, 3, limit);
    Grow(list, 4, limit);
    Grow(list, 5, limit);
    assert list[..6] == list;
  }

  lemma Grow(sources: seq<Source>, n: nat, limit: nat)
    requires n < |sources| && AllListed(sources)
    ensures Candidates(sources[..n + 1], limit) == Candidates(sources[..n], limit) + Recent(sources[n], limit)
    ensures n == 0 ==> Candidates(sources[..n], limit) == []
  {
    assert sources[..n + 1][..n] == sources[..n];
  }

  // --------------------------------------------------------------- nothing is lost

  /** How many undated rows of `items` print a moment before `key`. */
  function Misdated(items: seq<Item>, key: int): nat {
    if items == [] then 0
    else Misdated(items[1..], key) + if !items[0].dated && Micros(items[0].at) < key then 1 else 0
  }

  function Except(sources: seq<Source>, n: nat): (others: seq<Source>)
    requires n < |sources|
    ensures AllListed(sources) ==> AllListed(others)
  {
    sources[..n] + sources[n + 1..]
  }

  /** Whenever undated rows of a source crowd a later one of its rows out, the other
      sources have at least as many rows to show that are no older than it. It is a
      condition on the rows alone: nothing in it is sorted or merged. */
  ghost predicate NoneOvertaken(sources: seq<Source>, limit: nat)
    requires AllListed(sources)
  {
    forall n, x :: 0 <= n < |sources| && x in Dropped(sources[n], limit) ==> Outweighed(sources, n, limit, x)
  }

  predicate Outweighed(sources: seq<Source>, n: nat, limit: nat, x: Item)
    requires AllListed(sources) && n < |sources|
  {
    Misdated(Recent(sources[n], limit), Micros(x.at))
      <= AtLeast(OnCalendar(Candidates(Except(sources, n), limit)), Micros(x.at))
  }

  lemma {:induction false} DatedMembers(items: seq<Item>, x: Item)
    requires x in Dated(items)
    ensures exists i :: 0 <= i < |items| && items[i] == x && items[i].dated
  {
    if !(items[0].dated && items[0] == x) {
      DatedMembers(items[1..], x);
      var i :| 0 <= i < |items[1..]| && items[1..][i] == x && items[1..][i].dated;
      assert items[i + 1] == x;
    }
  }

  /** The item shows the row: its payload, and its time or else the clock's. */
  predicate Shows(x: Item, row: Row, reading: Time) {
    && x.payload == row.payload
    && (row.time.Some? ==> x.dated && x.at == row.time.value)
    && (row.time.None? ==> !x.dated && x.at == reading)
  }

  /** What a source contributes are its first `limit` rows. */
  lemma RecentIff(s: Source, limit: nat, x: Item)
    requires Listed(s)
    ensures x in Recent(s, limit) <==> exists j: nat :: j < limit && j < |s.rows| && Shows(x, s.rows[j], s.readings[j])
  {
    var recent := Recent(s, limit);
    forall j: nat | j < limit && j < |s.rows| ensures j < |recent| && recent[j] == Show(s.rows[j], s.readings[j]) {
    }
  }

  predicate DropsAt(s: Source, limit: nat, x: Item, j: nat)
    requires Listed(s)
  {
    limit <= j < |s.rows| && s.rows[j].time.Some? && Shows(x, s.rows[j], s.readings[j])
  }

  /** What it drops are its dated rows behind those. */
  lemma DroppedIff(s: Source, limit: nat, x: Item)
    requires Listed(s)
    ensures x in Dropped(s, limit) <==> exists j: nat :: DropsAt(s, limit, x, j)
  {
    if x in Dropped(s, limit) {
      DroppedIsBehind(s, limit, x);
    }
    if j: nat :| DropsAt(s, limit, x, j) {
      BehindIsDropped(s, limit, x, j);
    }
  }

  lemma DroppedIsBehind(s: Source, limit: nat, x: Item)
    requires Listed(s) && x in Dropped(s, limit)
    ensures exists j: nat :: DropsAt(s, limit, x, j)
  {
    var from := Min(limit, |s.rows|);
    var behind := Shown(s, from, |s.rows|);
    DatedMembers(behind, x);
    var k: nat :| k < |behind| && behind[k] == x && behind[k].dated;
    assert x == Show(s.rows[from + k], s.readings[from + k]);
    assert DropsAt(s, limit, x, from + k);
  }

  lemma BehindIsDropped(s: Source, limit: nat, x: Item, j: nat)
    requires Listed(s) && DropsAt(s, limit, x, j)
    ensures x in Dropped(s, limit)
  {
    var from := Min(limit, |s.rows|);
    var behind := Shown(s, from, |s.rows|);
    assert x == Show(s.rows[j], s.readings[j]);
    assert behind[j - from] == Show(s.rows[from + (j - from)], s.readings[from + (j - from)]) == x;
    MembersDated(behind, j - from);
  }

  lemma {:induction false} MembersDated(items: seq<Item>, i: nat)
    requires i < |items| && items[i].dated
    ensures items[i] in Dated(items)
  {
    if i > 0 {
      MembersDated(items[1..], i - 1);
    }
  }

  lemma DroppedRow(s: Source, limit: nat, x: Item) returns (j: nat)
    requires Listed(s) && x in Dropped(s, limit)
    ensures limit <= j < |s.rows| && s.rows[j].time == Some(x.at)
  {
    var from := Min(limit, |s.rows|);
    var k := DatedRow(s, from, x);
    j := from + k;
  }

  lemma DatedRow(s: Source, from: nat, x: Item) returns (k: nat)
    requires Listed(s) && from <= |s.rows| && x in Dated(Shown(s, from, |s.rows|))
    ensures from + k < |s.rows| && s.rows[from + k].time == Some(x.at)
  {
    var behind := Shown(s, from, |s.rows|);
    DatedMembers(behind, x);
    k :| k < |behind| && behind[k] == x && behind[k].dated;
    assert behind[k] == Show(s.rows[from + k], s.readings[from + k]);
  }

  lemma RecentAt(s: Source, limit: nat, i: nat)
    requires Listed(s) && i < limit <= |s.rows|
    ensures |Recent(s, limit)| == limit && Recent(s, limit)[i] == Show(s.rows[i], s.readings[i])
  {
  }

  /** Only undated rows can stand before a dropped row and print less. */
  lemma KeptAreNotOlder(s: Source, limit: nat, x: Item)
    requires Listed(s) && x in Dropped(s, limit)
    ensures |Recent(s, limit)| == limit
    ensures forall i :: 0 <= i < limit && Recent(s, limit)[i].dated ==> Micros(Recent(s, limit)[i].at) >= Micros(x.at)
  {
    var j := DroppedRow(s, limit, x);
    forall i | 0 <= i < limit && Recent(s, limit)[i].dated
      ensures Micros(Recent(s, limit)[i].at) >= Micros(x.at)
    {
      RecentAt(s, limit, i);
    }
  }

  lemma {:induction false} AtLeastOrMisdated(items: seq<Item>, key: int)
    requires forall i :: 0 <= i < |items| && items[i].dated ==> Micros(items[i].at) >= key
    ensures AtLeast(OnCalendar(items), key) + Misdated(items, key) == |items|
  {
    if items != [] {
      AtLeastOrMisdated(items[1..], key);
      assert OnCalendar(items)[1..] == OnCalendar(items[1..]);
    }
  }

  lemma OnCalendarAppend(a: seq<Item>, b: seq<Item>)
    ensures OnCalendar(a + b) == OnCalendar(a) + OnCalendar(b)
  {
  }

  lemma {:induction false} CandidatesAppend(a: seq<Source>, b: seq<Source>, limit: nat)
    requires AllListed(a) && AllListed(b) && AllListed(a + b)
    ensures Candidates(a + b, limit) == Candidates(a, limit) + Candidates(b, limit)
  {
    if b == [] {
      assert a + b == a;
    } else {
      var front, last := b[..|b| - 1], b[|b| - 1];
      FrontIsListed(a, front, last);
      assert front + [last] == b && (a + front) + [last] == a + b;
      CandidatesAppend(a, front, limit);
      CandidatesSnoc(a + front, last, limit);
      CandidatesSnoc(front, last, limit);
      Associates(Candidates(a, limit), Candidates(front, limit), Recent(last, limit));
    }
  }

  lemma FrontIsListed(a: seq<Source>, front: seq<Source>, last: Source)
    requires AllListed(a) && AllListed(front + [last])
    ensures AllListed(front) && Listed(last) && AllListed(a + front)
  {
    var b := front + [last];
    assert b[|front|] == last;
    assert forall i :: 0 <= i < |front| ==> b[i] == front[i];
  }

  lemma Associates(a: seq<Item>, b: seq<Item>, c: seq<Item>)
    ensures (a + b) + c == a + (b + c)
  {
  }

  lemma CandidatesSnoc(sources: seq<Source>, last: Source, limit: nat)
    requires AllListed(sources) && Listed(last)
    ensures AllListed(sources + [last])
    ensures Candidates(sources + [last], limit) == Candidates(sources, limit) + Recent(last, limit)
  {
    assert (sources + [last])[..|sources|] == sources;
  }

  /** The merged rows are those of one source and those of the others. */
  lemma AtLeastBySource(sources: seq<Source>, n: nat, limit: nat, key: int)
    requires AllListed(sources) && n < |sources|
    ensures AtLeast(OnCalendar(Candidates(sources, limit)), key)
      == AtLeast(OnCalendar(Recent(sources[n], limit)), key)
        + AtLeast(OnCalendar(Candidates(Except(sources, n), limit)), key)
    ensures |Candidates(sources, limit)| >= |Recent(sources[n], limit)|
  {
    var a, b, s := sources[..n], sources[n + 1..], sources[n];
    assert sources == (a + [s]) + b && (a + [s])[..n] == a;
    CandidatesAppend(a + [s], b, limit);
    CandidatesAppend(a, b, limit);
    var ca, cb, cs := Candidates(a, limit), Candidates(b, limit), Recent(s, limit);
    OnCalendarAppend(ca + cs, cb);
    OnCalendarAppend(ca, cs);
    OnCalendarAppend(ca, cb);
    AtLeastAppend(OnCalendar(ca + cs), OnCalendar(cb), key);
    AtLeastAppend(OnCalendar(ca), OnCalendar(cs), key);
    AtLeastAppend(OnCalendar(ca), OnCalendar(cb), key);
  }

  /** A row its own source dropped meets enough rows that are no older if and only
      if the other sources outweigh the undated rows that crowded it out. */
  lemma OutweighedIff(sources: seq<Source>, n: nat, limit: nat, x: Item)
    requires AllListed(sources) && n < |sources| && x in Dropped(sources[n], limit)
    ensures |Candidates(sources, limit)| >= limit
    ensures Outweighed(sources, n, limit, x) <==> AtLeast(OnCalendar(Candidates(sources, limit)), Micros(x.at)) >= limit
  {
    KeptAreNotOlder(sources[n], limit, x);
    AtLeastOrMisdated(Recent(sources[n], limit), Micros(x.at));
    AtLeastBySource(sources, n, limit, Micros(x.at));
  }

  lemma {:induction false} DroppedBySomeSource(sources: seq<Source>, limit: nat, x: Item)
    requires AllListed(sources)
    ensures x in AllDropped(sources, limit) <==> exists n :: 0 <= n < |sources| && x in Dropped(sources[n], limit)
  {
    if sources != [] {
      var front, last := sources[..|sources| - 1], |sources| - 1;
      DroppedBySomeSource(front, limit, x);
      if x in Dropped(sources[last], limit) {
      } else if n :| 0 <= n < |sources| && x in Dropped(sources[n], limit) {
        assert front[n] == sources[n];
      } else {
        assert forall n :: 0 <= n < |front| ==> front[n] == sources[n];
      }
    }
  }

  lemma {:induction false} NothingDroppedBelowTheLimit(sources: seq<Source>, limit: nat)
    requires AllListed(sources) && |Candidates(sources, limit)| < limit
    ensures AllDropped(sources, limit) == []
  {
    if sources != [] {
      var last := sources[|sources| - 1];
      NothingDroppedBelowTheLimit(sources[..|sources| - 1], limit);
      assert |last.rows| < limit;
      assert Shown(last, |last.rows|, |last.rows|) == [];
    }
  }

  /** A moment is not strictly newer than any row of a full feed if and only if at
      least `limit` of the merged rows are stamped no earlier than it. */
  lemma CrowdedOutIff(sources: seq<Source>, limit: nat, key: int)
    requires AllListed(sources) && |Candidates(sources, limit)| >= limit
    ensures (forall y :: y in Feed(sources, limit) ==> Micros(y.at) >= key)
      <==> AtLeast(OnCalendar(Candidates(sources, limit)), key) >= limit
  {
    var c := Candidates(sources, limit);
    FrontIsAtLeastIff(OnCalendar(c), key, limit);
    FeedAt(sources, limit);
    var feed := Feed(sources, limit);
    forall i | 0 <= i < limit ensures Sort(OnCalendar(c))[i].key >= key <==> Micros(feed[i].at) >= key {
    }
    assert (forall y :: y in feed ==> Micros(y.at) >= key)
      <==> forall i :: 0 <= i < limit ==> Micros(feed[i].at) >= key;
  }

  lemma FeedAt(sources: seq<Source>, limit: nat)
    requires AllListed(sources) && |Candidates(sources, limit)| >= limit
    ensures var feed, sorted := Feed(sources, limit), Sort(OnCalendar(Candidates(sources, limit)));
      |feed| == limit <= |sorted| && forall i :: 0 <= i < limit ==> sorted[i] == KeyedBy(feed[i])
  {
    var c := Candidates(sources, limit);
    SortByStampIsSort(c);
    SortSorts(OnCalendar(c));
    assert |OnCalendar(SortByStamp(c))| == |SortByStamp(c)|;
  }

  ghost predicate NothingNewerLeftOut(sources: seq<Source>, limit: nat)
    requires AllListed(sources)
  {
    forall x :: x in AllDropped(sources, limit) ==>
      forall y :: y in Feed(sources, limit) ==> Micros(y.at) >= Micros(x.at)
  }

  /** No dated row that a source's limit left out is strictly newer than a row of
      the feed, if and only if undated rows overtake none. */
  lemma NothingNewerLeftOutIff(sources: seq<Source>, limit: nat)
    requires AllListed(sources)
    ensures NothingNewerLeftOut(sources, limit) <==> NoneOvertaken(sources, limit)
  {
    forall n, x | 0 <= n < |sources| && x in Dropped(sources[n], limit)
      ensures x in AllDropped(sources, limit)
      ensures Outweighed(sources, n, limit, x)
        <==> forall y :: y in Feed(sources, limit) ==> Micros(y.at) >= Micros(x.at)
    {
      DroppedBySomeSource(sources, limit, x);
      OutweighedIff(sources, n, limit, x);
      CrowdedOutIff(sources, limit, Micros(x.at));
    }
    forall x | x in AllDropped(sources, limit)
      ensures exists n :: 0 <= n < |sources| && x in Dropped(sources[n], limit)
    {
      DroppedBySomeSource(sources, limit, x);
    }
  }

  /** The feed one would get without the per-source limits: everything there is, in
      any order, sorted and cut. */
  ghost predicate ShowsTheTopOf(sources: seq<Source>, limit: nat, all: seq<Item>)
    requires AllListed(sources)
  {
    Keys(OnCalendar(Feed(sources, limit))) == Keys(OnCalendar(SortByStamp(all)[..Min(limit, |SortByStamp(all)|)]))
  }

  /** Truncating each source before the merge loses nothing: the stamps of the feed
      are the first `limit` of the whole union, if and only if undated rows
      overtake none. */
  lemma FeedIsTheTopOfTheUnionIff(sources: seq<Source>, limit: nat, all: seq<Item>)
    requires AllListed(sources)
    requires multiset(OnCalendar(all)) == multiset(OnCalendar(Candidates(sources, limit) + AllDropped(sources, limit)))
    ensures ShowsTheTopOf(sources, limit, all) <==> NoneOvertaken(sources, limit)
  {
    var c, d := Candidates(sources, limit), AllDropped(sources, limit);
    OnCalendarAppend(c, d);
    SortedKeysIgnoreOrder(OnCalendar(all), OnCalendar(c) + OnCalendar(d));
    FrontOfSorted(c, limit);
    FrontOfSorted(all, limit);
    if NoneOvertaken(sources, limit) {
      FewerOrBeaten(sources, limit);
      TheUnionHasNoMore(OnCalendar(c), OnCalendar(d), limit);
    } else {
      var n, x :| 0 <= n < |sources| && x in Dropped(sources[n], limit) && !Outweighed(sources, n, limit, x);
      OutweighedIff(sources, n, limit, x);
      DroppedBySomeSource(sources, limit, x);
      TheUnionHasOneMore(OnCalendar(c), OnCalendar(d), KeyedBy(x), limit);
    }
  }

  function Front(keys: seq<int>, limit: nat): seq<int> {
    keys[..Min(limit, |keys|)]
  }

  lemma FrontOfSorted(items: seq<Item>, limit: nat)
    ensures |SortByStamp(items)| == |items|
    ensures Keys(OnCalendar(SortByStamp(items)[..Min(limit, |items|)])) == Front(Keys(Sort(OnCalendar(items))), limit)
  {
    SortByStampIsSort(items);
    SortSorts(OnCalendar(items));
    var sorted := SortByStamp(items);
    assert |OnCalendar(sorted)| == |sorted|;
    KeysOfFront(sorted, Min(limit, |items|));
  }

  lemma KeysOfFront(items: seq<Item>, n: nat)
    requires n <= |items|
    ensures Keys(OnCalendar(items[..n])) == Keys(OnCalendar(items))[..n]
  {
  }

  lemma TheUnionHasNoMore(kc: seq<Keyed<Item>>, kd: seq<Keyed<Item>>, limit: nat)
    requires |kc| < limit ==> kd == []
    requires limit <= |kc| ==> forall i :: 0 <= i < |kd| ==> AtLeast(kc, kd[i].key) >= limit
    ensures Front(Keys(Sort(kc)), limit) == Front(Keys(Sort(kc + kd)), limit)
  {
    if |kc| < limit {
      assert kc + kd == kc;
    } else {
      AddingLesserItems(kc, kd, limit);
      assert Keys(Sort(kc))[..limit] == Keys(Sort(kc)[..limit]);
      assert Keys(Sort(kc + kd))[..limit] == Keys(Sort(kc + kd)[..limit]);
    }
  }

  lemma FewerOrBeaten(sources: seq<Source>, limit: nat)
    requires AllListed(sources) && NoneOvertaken(sources, limit)
    ensures var kc, kd := OnCalendar(Candidates(sources, limit)), OnCalendar(AllDropped(sources, limit));
      && (|kc| < limit ==> kd == [])
      && forall i :: 0 <= i < |kd| ==> AtLeast(kc, kd[i].key) >= limit
  {
    var d := AllDropped(sources, limit);
    if |Candidates(sources, limit)| < limit {
      NothingDroppedBelowTheLimit(sources, limit);
    }
    forall i | 0 <= i < |d| ensures AtLeast(OnCalendar(Candidates(sources, limit)), Micros(d[i].at)) >= limit {
      DroppedBySomeSource(sources, limit, d[i]);
      var n :| 0 <= n < |sources| && d[i] in Dropped(sources[n], limit);
      OutweighedIff(sources, n, limit, d[i]);
    }
  }

  /** If fewer than `limit` items are at least `x`, then adding `x` shows within the
      first `limit`. */
  lemma TheUnionHasOneMore(kc: seq<Keyed<Item>>, kd: seq<Keyed<Item>>, x: Keyed<Item>, limit: nat)
    requires x in kd && AtLeast(kc, x.key) < limit <= |kc|
    ensures Front(Keys(Sort(kc)), limit) != Front(Keys(Sort(kc + kd)), limit)
  {
    var n := AtLeast(kc, x.key) + 1;
    AtLeastAppend(kc, kd, x.key);
    SomeAtLeast(kd, x);
    FrontIsAtLeastIff(kc, x.key, n);
    FrontIsAtLeastIff(kc + kd, x.key, n);
    var i :| 0 <= i < n && Sort(kc)[i].key < x.key;
    assert Front(Keys(Sort(kc)), limit)[i] < x.key <= Front(Keys(Sort(kc + kd)), limit)[i];
  }

  lemma {:induction false} SomeAtLeast(items: seq<Keyed<Item>>, x: Keyed<Item>)
    requires x in items
    ensures AtLeast(items, x.key) >= 1
  {
    if items[0] != x {
      SomeAtLeast(items[1..], x);
    }
  }

  /** It is enough that the clock is ahead of the rows it is compared with: that no
      dated row behind a source's limit lies after the reading given to an undated
      row before it. In particular sources without undated rows lose nothing. */
  lemma ClockAheadSuffices(sources: seq<Source>, limit: nat)
    requires AllListed(sources) && forall n :: 0 <= n < |sources| ==> ClockAhead(sources[n], limit)
    ensures NoneOvertaken(sources, limit)
  {
    forall n, x | 0 <= n < |sources| && x in Dropped(sources[n], limit) ensures Outweighed(sources, n, limit, x) {
      UndatedAreNotOlder(sources[n], limit, x);
      NoneMisdated(Recent(sources[n], limit), Micros(x.at));
    }
  }

  lemma UndatedAreNotOlder(s: Source, limit: nat, x: Item)
    requires Listed(s) && ClockAhead(s, limit) && x in Dropped(s, limit)
    ensures var kept := Recent(s, limit);
      forall i :: 0 <= i < |kept| && !kept[i].dated ==> Micros(kept[i].at) >= Micros(x.at)
  {
    var j := DroppedRow(s, limit, x);
    var kept := Recent(s, limit);
    forall i | 0 <= i < |kept| && !kept[i].dated ensures Micros(kept[i].at) >= Micros(x.at) {
      RecentAt(s, limit, i);
    }
  }

  predicate ClockAhead(s: Source, limit: nat)
    requires Listed(s)
  {
    forall i, j :: 0 <= i < limit <= j < |s.rows| && s.rows[i].time.None? && s.rows[j].time.Some?
      ==> Micros(s.rows[j].time.value) <= Micros(s.readings[i])
  }

  lemma {:induction false} NoneMisdated(items: seq<Item>, key: int)
    requires forall i :: 0 <= i < |items| && !items[i].dated ==> Micros(items[i].at) >= key
    ensures Misdated(items, key) == 0
  {
    if items != [] {
      NoneMisdated(items[1..], key);
    }
  }

  /** And overtaking happens: an undated run is listed before every dated one and is
      stamped with the time of the request, so alone it crowds a run with a later
      start out of a feed of one. */
  lemma UndatedRunsCrowdOutFutureOnes(now: Time, later: Time)
    requires Micros(now) < Micros(later)
    ensures var runs := Source([Row(None, 1), Row(Some(later), 2)], [now, now]);
      && AllListed([runs]) && !NoneOvertaken([runs], 1)
      && Feed([runs], 1) == [Show(Row(None, 1), now)]
      && Item(true, later, 2) in AllDropped([runs], 1)
  {
    var runs := Source([Row(None, 1), Row(Some(later), 2)], [now, now]);
    FeedOfOneSource(runs);
    FirstRowIsTheFeed(runs);
    SecondRowIsDropped(runs);
    assert Show(runs.rows[0], now) in Feed([runs], 1) && Item(true, later, 2) in AllDropped([runs], 1);
    NothingNewerLeftOutIff([runs], 1);
  }

  lemma FirstRowIsTheFeed(s: Source)
    requires Listed(s) && s.rows != []
    ensures AllListed([s]) && Feed([s], 1) == [Show(s.rows[0], s.readings[0])]
  {
    var item := Show(s.rows[0], s.readings[0]);
    FeedOfOneSource(s);
    FirstIsRecent(s);
    SortOfOne(item);
    assert [item][..1] == [item];
  }

  lemma FirstIsRecent(s: Source)
    requires Listed(s) && s.rows != []
    ensures Recent(s, 1) == [Show(s.rows[0], s.readings[0])]
  {
  }

  lemma SortOfOne(item: Item)
    ensures SortByStamp([item]) == [item]
  {
    assert [item][..0] == [];
  }

  lemma SecondRowIsDropped(s: Source)
    requires Listed(s) && |s.rows| == 2 && s.rows[1].time.Some?
    ensures Dropped(s, 1) == [Show(s.rows[1], s.readings[1])]
  {
    var late := Show(s.rows[1], s.readings[1]);
    assert Shown(s, 1, 2) == [late];
    assert Dated([late]) == [late] by {
      assert [late][1..] == [];
    }
  }

  lemma FeedOfOneSource(s: Source)
    requires Listed(s)
    ensures AllListed([s]) && Candidates([s], 1) == Recent(s, 1) && AllDropped([s], 1) == Dropped(s, 1)
  {
    var list := [s];
    assert list[..0] == [];
    assert [] + Recent(s, 1) == Recent(s, 1);
    assert [] + Dropped(s, 1) == Dropped(s, 1);
  }
}
