/** Incident grouping, `list_incidents` of `backend/app/api/routes/alerts.py`:
    a quadratic greedy pass that groups alerts of one rule lying within a time
    window of the group's first alert. */
module Incidents {
  import opened Wrappers
  import opened IsoTime
  import opened Sets

  type Id = int

  datatype Alert = Alert(id: Id, ruleId: Id, severity: string, createdAt: Option<Time>, status: string)

  datatype Incident = Incident(
    incidentId: Id, ruleId: Id, alertCount: nat, severity: string,
    firstAlertAt: Option<string>, lastAlertAt: Option<string>, alertIds: seq<Id>, status: string)

  function Abs(n: int): nat {
    if n < 0 then -n else n
  }

  /** Within `minutes` of one another; an alert without a time is near nothing. */
  predicate Near(a: Alert, b: Alert, minutes: int) {
    a.createdAt.Some? && b.createdAt.Some?
    && Abs(Micros(a.createdAt.value) - Micros(b.createdAt.value)) <= minutes * 60_000_000
  }

  predicate Close(a: Alert, b: Alert, minutes: int) {
    a.ruleId == b.ruleId && Near(a, b, minutes)
  }

  /** No two alerts share a primary key. */
  predicate DistinctIds(alerts: seq<Alert>) {
    forall i, j :: 0 <= i < j < |alerts| ==> alerts[i].id != alerts[j].id
  }

  /** `ORDER BY created_at DESC`. */
  predicate NewestFirst(alerts: seq<Alert>) {
    forall i, j :: 0 <= i < j < |alerts| && alerts[i].createdAt.Some? && alerts[j].createdAt.Some?
      ==> Micros(alerts[i].createdAt.value) >= Micros(alerts[j].createdAt.value)
  }

  // ------------------------------------------------------------------ leaders

  /** Starting the search at `from`: the first earlier leader close to alert `i`,
      or `i` itself. */
  function LeadFrom(alerts: seq<Alert>, minutes: int, i: nat, from: nat): (lead: nat)
    requires from <= i < |alerts|
    ensures from <= lead <= i
    decreases i, 1, i - from
  {
    if from == i then i
    else if IsLeader(alerts, minutes, from) && Close(alerts[from], alerts[i], minutes) then from
    else LeadFrom(alerts, minutes, i, from + 1)
  }

  /** The alert that opens the group of alert `i`. */
  function Lead(alerts: seq<Alert>, minutes: int, i: nat): nat
    requires i < |alerts|
    decreases i, 2
  {
    LeadFrom(alerts, minutes, i, 0)
  }

  predicate IsLeader(alerts: seq<Alert>, minutes: int, i: nat)
    requires i < |alerts|
    decreases i, 3
  {
    Lead(alerts, minutes, i) == i
  }

  lemma {:induction false} LeadFromProperties(alerts: seq<Alert>, minutes: int, i: nat, from: nat)
    requires from <= i < |alerts|
    ensures var lead := LeadFrom(alerts, minutes, i, from);
      (forall j :: from <= j < lead ==> !(IsLeader(alerts, minutes, j) && Close(alerts[j], alerts[i], minutes)))
      && (lead < i ==> IsLeader(alerts, minutes, lead) && Close(alerts[lead], alerts[i], minutes))
    decreases i - from
  {
    if from < i && !(IsLeader(alerts, minutes, from) && Close(alerts[from], alerts[i], minutes)) {
      LeadFromProperties(alerts, minutes, i, from + 1);
    }
  }

  /** The lead of an alert is a leader close to it, and no earlier leader is. */
  lemma LeadProperties(alerts: seq<Alert>, minutes: int, i: nat)
    requires i < |alerts|
    ensures var lead := Lead(alerts, minutes, i);
      lead <= i && IsLeader(alerts, minutes, lead)
      && (lead < i ==> Close(alerts[lead], alerts[i], minutes))
      && (forall j :: 0 <= j < lead && IsLeader(alerts, minutes, j) ==> !Close(alerts[j], alerts[i], minutes))
  {
    LeadFromProperties(alerts, minutes, i, 0);
  }

  // ------------------------------------------------------------------- groups

  /** The alerts among the first `upTo` that leader `l` collects, in order. */
  function Members(alerts: seq<Alert>, minutes: int, l: nat, upTo: nat): seq<nat>
    requires upTo <= |alerts|
  {
    if upTo == 0 then []
    else Members(alerts, minutes, l, upTo - 1) + if Lead(alerts, minutes, upTo - 1) == l then [upTo - 1] else []
  }

  function Leaders(alerts: seq<Alert>, minutes: int, upTo: nat): seq<nat>
    requires upTo <= |alerts|
  {
    if upTo == 0 then []
    else Leaders(alerts, minutes, upTo - 1) + if IsLeader(alerts, minutes, upTo - 1) then [upTo - 1] else []
  }

  function Pick(alerts: seq<Alert>, indices: seq<nat>): (group: seq<Alert>)
    requires forall k: nat :: k in indices ==> k < |alerts|
    ensures |group| == |indices|
  {
    seq(|indices|, n requires 0 <= n < |indices| => assert indices[n] in indices; alerts[indices[n]])
  }

  predicate Increasing(s: seq<nat>) {
    forall x, y :: 0 <= x < y < |s| ==> s[x] < s[y]
  }

  lemma IncreasingAppend(s: seq<nat>, bound: nat)
    requires Increasing(s) && forall k: nat :: k in s ==> k < bound
    ensures Increasing(s + [bound])
  {
    forall x | 0 <= x < |s| ensures s[x] < bound {
      assert s[x] in s;
    }
  }

  lemma {:induction false} MembersProperties(alerts: seq<Alert>, minutes: int, l: nat, upTo: nat)
    requires upTo <= |alerts|
    ensures forall k: nat :: k in Members(alerts, minutes, l, upTo) <==> k < upTo && Lead(alerts, minutes, k) == l
    ensures Increasing(Members(alerts, minutes, l, upTo))
  {
    if upTo > 0 {
      MembersProperties(alerts, minutes, l, upTo - 1);
      IncreasingAppend(Members(alerts, minutes, l, upTo - 1), upTo - 1);
    }
  }

  lemma {:induction false} LeadersProperties(alerts: seq<Alert>, minutes: int, upTo: nat)
    requires upTo <= |alerts|
    ensures forall k: nat :: k in Leaders(alerts, minutes, upTo) <==> k < upTo && IsLeader(alerts, minutes, k)
    ensures Increasing(Leaders(alerts, minutes, upTo))
  {
    if upTo > 0 {
      LeadersProperties(alerts, minutes, upTo - 1);
      IncreasingAppend(Leaders(alerts, minutes, upTo - 1), upTo - 1);
    }
  }

  // ---------------------------------------------------------------- the report

  function Rank(severity: string): nat {
    if severity == "critical" then 4
    else if severity == "high" then 3
    else if severity == "medium" then 2
    else if severity == "low" then 1
    else 0
  }

  /** `max(..., key=rank)`: the first of the severities of greatest rank. */
  function MaxSeverity(group: seq<Alert>): string
    requires group != []
  {
    if |group| == 1 then group[0].severity
    else
      var best := MaxSeverity(group[..|group| - 1]);
      var last := group[|group| - 1].severity;
      if Rank(last) > Rank(best) then last else best
  }

  function Stamps(group: seq<Alert>): seq<string> {
    if group == [] then []
    else
      var last := group[|group| - 1];
      Stamps(group[..|group| - 1]) + if last.createdAt.Some? then [Iso(last.createdAt.value)] else []
  }

  function Least(stamps: seq<string>): Option<string> {
    if stamps == [] then None
    else
      var best := Least(stamps[..|stamps| - 1]);
      var last := stamps[|stamps| - 1];
      if best.None? || StringLess(last, best.value) then Some(last) else best
  }

  function Greatest(stamps: seq<string>): Option<string> {
    if stamps == [] then None
    else
      var best := Greatest(stamps[..|stamps| - 1]);
      var last := stamps[|stamps| - 1];
      if best.None? || StringLess(best.value, last) then Some(last) else best
  }

  function Ids(group: seq<Alert>): seq<Id> {
    seq(|group|, i requires 0 <= i < |group| => group[i].id)
  }

  function Report(group: seq<Alert>): Incident
    requires group != []
  {
    Incident(group[0].id, group[0].ruleId, |group|, MaxSeverity(group),
             Least(Stamps(group)), Greatest(Stamps(group)), Ids(group), group[0].status)
  }

  /** The incident opened by leader `l`. */
  function Opened(alerts: seq<Alert>, minutes: int, l: nat): Incident
    requires l < |alerts| && IsLeader(alerts, minutes, l)
  {
    MembersProperties(alerts, minutes, l, |alerts|);
    var m := Members(alerts, minutes, l, |alerts|);
    assert l in m;
    Report(Pick(alerts, m))
  }

  function Reports(alerts: seq<Alert>, minutes: int, leaders: seq<nat>): seq<Incident>
    requires forall l: nat :: l in leaders ==> l < |alerts| && IsLeader(alerts, minutes, l)
  {
    seq(|leaders|, n requires 0 <= n < |leaders| => assert leaders[n] in leaders; Opened(alerts, minutes, leaders[n]))
  }

  // -------------------------------------------------------------- the route

  lemma {:induction false} NoMembersBefore(alerts: seq<Alert>, minutes: int, l: nat, upTo: nat)
    requires upTo <= l && upTo <= |alerts|
    ensures Members(alerts, minutes, l, upTo) == []
  {
    if upTo > 0 {
      NoMembersBefore(alerts, minutes, l, upTo - 1);
      LeadProperties(alerts, minutes, upTo - 1);
    }
  }

  /** What the inner loop has collected for leader `i` when it reaches `j`. */
  function Collected(alerts: seq<Alert>, minutes: int, i: nat, j: nat): seq<nat>
    requires j <= |alerts|
  {
    if j <= i then [i] else Members(alerts, minutes, i, j)
  }

  predicate Used(alerts: seq<Alert>, minutes: int, i: nat, j: nat, k: nat)
    requires k < |alerts|
  {
    Lead(alerts, minutes, k) < i || k == i || (k < j && Lead(alerts, minutes, k) == i)
  }

  lemma CollectedNext(alerts: seq<Alert>, minutes: int, i: nat, j: nat)
    requires i < |alerts| && j < |alerts| && IsLeader(alerts, minutes, i)
    ensures Collected(alerts, minutes, i, j + 1)
      == Collected(alerts, minutes, i, j) + if Lead(alerts, minutes, j) == i && j != i then [j] else []
    ensures Lead(alerts, minutes, j) <= j
    ensures !Used(alerts, minutes, i, j, j)
      ==> (Lead(alerts, minutes, j) == i <==> Close(alerts[i], alerts[j], minutes))
  {
    LeadProperties(alerts, minutes, j);
    if j == i {
      NoMembersBefore(alerts, minutes, i, i);
    }
  }

  /** Exactly the ids of the alerts taken so far are marked. */
  ghost predicate Marks(alerts: seq<Alert>, minutes: int, i: nat, j: nat, used: set<Id>) {
    forall k: nat :: k < |alerts| ==> (alerts[k].id in used <==> Used(alerts, minutes, i, j, k))
  }

  lemma MarksNext(alerts: seq<Alert>, minutes: int, i: nat, j: nat, used: set<Id>)
    requires DistinctIds(alerts) && i < |alerts| && j < |alerts| && Marks(alerts, minutes, i, j, used)
    ensures alerts[j].id in used || Lead(alerts, minutes, j) != i ==> Marks(alerts, minutes, i, j + 1, used)
    ensures Lead(alerts, minutes, j) == i ==> Marks(alerts, minutes, i, j + 1, used + {alerts[j].id})
  {
    forall k: nat | k < |alerts|
      ensures Used(alerts, minutes, i, j + 1, k)
        <==> Used(alerts, minutes, i, j, k) || (k == j && Lead(alerts, minutes, j) == i)
    {
    }
  }

  ghost predicate Gathered(alerts: seq<Alert>, minutes: int, i: nat, j: nat, group: seq<Alert>)
    requires j <= |alerts|
  {
    var indices := Collected(alerts, minutes, i, j);
    (forall k: nat :: k in indices ==> k < |alerts|) && group != [] && group == Pick(alerts, indices)
  }

  lemma GatheredNext(alerts: seq<Alert>, minutes: int, i: nat, j: nat, group: seq<Alert>)
    requires i < |alerts| && j < |alerts| && IsLeader(alerts, minutes, i) && Gathered(alerts, minutes, i, j, group)
    ensures if Lead(alerts, minutes, j) == i && j != i then Gathered(alerts, minutes, i, j + 1, group + [alerts[j]])
            else Gathered(alerts, minutes, i, j + 1, group)
  {
    CollectedNext(alerts, minutes, i, j);
  }

  /** The inner loop, for the alert at `i` whose id has just been marked used. */
  method CollectGroup(alerts: seq<Alert>, windowMinutes: int, i: nat, taken: set<Id>)
    returns (group: seq<Alert>, used: set<Id>)
    requires DistinctIds(alerts) && i < |alerts| && IsLeader(alerts, windowMinutes, i)
    requires forall k: nat :: k < |alerts| ==> (alerts[k].id in taken <==> Used(alerts, windowMinutes, i, 0, k))
    ensures forall k: nat :: k in Collected(alerts, windowMinutes, i, |alerts|) ==> k < |alerts|
    ensures group != [] && group == Pick(alerts, Collected(alerts, windowMinutes, i, |alerts|))
    ensures forall k: nat :: k < |alerts| ==> (alerts[k].id in used <==> Lead(alerts, windowMinutes, k) <= i)
  {
    var alert := alerts[i];
    group := [alert];
    used := taken;
    for j := 0 to |alerts|
      invariant Gathered(alerts, windowMinutes, i, j, group)
      invariant Marks(alerts, windowMinutes, i, j, used)
    {
      CollectedNext(alerts, windowMinutes, i, j);
      GatheredNext(alerts, windowMinutes, i, j, group);
      MarksNext(alerts, windowMinutes, i, j, used);
      var other := alerts[j];
      if other.id in used {
        continue;
      }
      if other.ruleId == alert.ruleId {
        if alert.createdAt.Some? && other.createdAt.Some? {
          var diff := Abs(Micros(alert.createdAt.value) - Micros(other.createdAt.value));
          if diff <= windowMinutes * 60_000_000 {
            group := group + [other];
            used := used + {other.id};
          }
        }
      }
    }
    MarksAreLeads(alerts, windowMinutes, i, used);
  }

  lemma MarksAreLeads(alerts: seq<Alert>, minutes: int, i: nat, used: set<Id>)
    requires i < |alerts| && IsLeader(alerts, minutes, i) && Marks(alerts, minutes, i, |alerts|, used)
    ensures forall k: nat :: k < |alerts| ==> (alerts[k].id in used <==> Lead(alerts, minutes, k) <= i)
  {
  }

  lemma ReportsNext(alerts: seq<Alert>, minutes: int, i: nat)
    requires i < |alerts|
    requires forall l: nat :: l in Leaders(alerts, minutes, i) ==> l < |alerts| && IsLeader(alerts, minutes, l)
    ensures forall l: nat :: l in Leaders(alerts, minutes, i + 1) ==> l < |alerts| && IsLeader(alerts, minutes, l)
    ensures Reports(alerts, minutes, Leaders(alerts, minutes, i + 1))
      == Reports(alerts, minutes, Leaders(alerts, minutes, i))
         + if IsLeader(alerts, minutes, i) then [Opened(alerts, minutes, i)] else []
  {
    LeadersProperties(alerts, minutes, i + 1);
  }

  lemma OnlyLeadersLead(alerts: seq<Alert>, minutes: int, i: nat)
    requires i < |alerts| && !IsLeader(alerts, minutes, i)
    ensures forall k: nat :: k < |alerts| ==> Lead(alerts, minutes, k) != i
  {
    forall k: nat | k < |alerts| ensures Lead(alerts, minutes, k) != i {
      LeadProperties(alerts, minutes, k);
    }
  }

  /** The leaders among the first `i` alerts have been reported. */
  ghost predicate HasReported(alerts: seq<Alert>, minutes: int, i: nat, incidents: seq<Incident>)
    requires i <= |alerts|
  {
    (forall l: nat :: l in Leaders(alerts, minutes, i) ==> l < |alerts| && IsLeader(alerts, minutes, l))
    && incidents == Reports(alerts, minutes, Leaders(alerts, minutes, i))
  }

  lemma HasReportedNext(alerts: seq<Alert>, minutes: int, i: nat, incidents: seq<Incident>)
    requires i < |alerts| && HasReported(alerts, minutes, i, incidents)
    ensures if IsLeader(alerts, minutes, i)
            then HasReported(alerts, minutes, i + 1, incidents + [Opened(alerts, minutes, i)])
            else HasReported(alerts, minutes, i + 1, incidents)
  {
    ReportsNext(alerts, minutes, i);
  }

  /** The ids of the alerts whose leaders have been reported are marked. */
  ghost predicate UsedBelow(alerts: seq<Alert>, minutes: int, i: nat, used: set<Id>) {
    forall k: nat :: k < |alerts| ==> (alerts[k].id in used <==> Lead(alerts, minutes, k) < i)
  }

  lemma OpensOne(alerts: seq<Alert>, minutes: int, i: nat, used: set<Id>)
    requires DistinctIds(alerts) && i < |alerts| && UsedBelow(alerts, minutes, i, used)
    ensures alerts[i].id !in used <==> IsLeader(alerts, minutes, i)
    ensures alerts[i].id in used ==> UsedBelow(alerts, minutes, i + 1, used)
    ensures alerts[i].id !in used ==> forall k: nat ::
      k < |alerts| ==> (alerts[k].id in used + {alerts[i].id} <==> Used(alerts, minutes, i, 0, k))
  {
    LeadProperties(alerts, minutes, i);
    if !IsLeader(alerts, minutes, i) {
      OnlyLeadersLead(alerts, minutes, i);
    }
  }

  lemma CollectedIsOpened(alerts: seq<Alert>, minutes: int, i: nat, group: seq<Alert>)
    requires i < |alerts| && IsLeader(alerts, minutes, i)
    requires forall k: nat :: k in Collected(alerts, minutes, i, |alerts|) ==> k < |alerts|
    requires group != [] && group == Pick(alerts, Collected(alerts, minutes, i, |alerts|))
    ensures Report(group) == Opened(alerts, minutes, i)
  {
  }

  /** The nested loops compute one report per leader, in order. */
  method ListIncidents(alerts: seq<Alert>, windowMinutes: int) returns (incidents: seq<Incident>)
    requires DistinctIds(alerts)
    ensures forall l: nat ::
      l in Leaders(alerts, windowMinutes, |alerts|) ==> l < |alerts| && IsLeader(alerts, windowMinutes, l)
    ensures incidents == Reports(alerts, windowMinutes, Leaders(alerts, windowMinutes, |alerts|))
    ensures DescribesAll(alerts, Groups(alerts, windowMinutes, |alerts|), incidents)
  {
    incidents := [];
    var used: set<Id> := {};
    for i := 0 to |alerts|
      invariant UsedBelow(alerts, windowMinutes, i, used)
      invariant HasReported(alerts, windowMinutes, i, incidents)
    {
      HasReportedNext(alerts, windowMinutes, i, incidents);
      OpensOne(alerts, windowMinutes, i, used);
      var alert := alerts[i];
      if alert.id in used {
        continue;
      }
      used := used + {alert.id};
      var group;
      group, used := CollectGroup(alerts, windowMinutes, i, used);
      CollectedIsOpened(alerts, windowMinutes, i, group);
      incidents := incidents + [Report(group)];
    }
    ReportsDescribeGroups(alerts, windowMinutes);
  }

  // ------------------------------------------------------- what the grouping is

  function Groups(alerts: seq<Alert>, minutes: int, upTo: nat): seq<seq<nat>>
    requires upTo <= |alerts|
  {
    var leaders := Leaders(alerts, minutes, upTo);
    seq(|leaders|, n requires 0 <= n < |leaders| => Members(alerts, minutes, leaders[n], upTo))
  }

  ghost predicate OnlyPlace(groups: seq<seq<nat>>, n: int, p: int, k: nat) {
    && 0 <= n < |groups| && 0 <= p < |groups[n]| && groups[n][p] == k
    && forall n', p' :: 0 <= n' < |groups| && 0 <= p' < |groups[n']| && groups[n'][p'] == k ==> n' == n && p' == p
  }

  lemma LeaderOfPlace(alerts: seq<Alert>, minutes: int, n: int, p: int)
    requires var g := Groups(alerts, minutes, |alerts|); 0 <= n < |g| && 0 <= p < |g[n]|
    ensures var k := Groups(alerts, minutes, |alerts|)[n][p];
      k < |alerts| && Lead(alerts, minutes, k) == Leaders(alerts, minutes, |alerts|)[n]
  {
    var l := Leaders(alerts, minutes, |alerts|)[n];
    MembersProperties(alerts, minutes, l, |alerts|);
    assert Groups(alerts, minutes, |alerts|)[n][p] in Members(alerts, minutes, l, |alerts|);
  }

  lemma IncreasingIsInjective(s: seq<nat>, x: int, y: int)
    requires Increasing(s) && 0 <= x < |s| && 0 <= y < |s| && s[x] == s[y]
    ensures x == y
  {
  }

  /** Every alert is in exactly one group, at exactly one place, and every group
      holds alerts only: the groups partition the alerts. */
  lemma GroupsPartition(alerts: seq<Alert>, minutes: int, k: nat) returns (n: nat, p: nat)
    requires k < |alerts|
    ensures OnlyPlace(Groups(alerts, minutes, |alerts|), n, p, k)
  {
    var leaders, g := Leaders(alerts, minutes, |alerts|), Groups(alerts, minutes, |alerts|);
    var l := Lead(alerts, minutes, k);
    LeadProperties(alerts, minutes, k);
    LeadersProperties(alerts, minutes, |alerts|);
    MembersProperties(alerts, minutes, l, |alerts|);
    assert l in leaders && k in Members(alerts, minutes, l, |alerts|);
    n :| n < |leaders| && leaders[n] == l;
    p :| p < |g[n]| && g[n][p] == k;
    forall n', p' | 0 <= n' < |g| && 0 <= p' < |g[n']| && g[n'][p'] == k ensures n' == n && p' == p {
      LeaderOfPlace(alerts, minutes, n', p');
      IncreasingIsInjective(leaders, n', n);
      IncreasingIsInjective(g[n], p', p);
    }
  }

  /** Any two alerts of one group are within the window of each other, not only
      of the group's leader. */
  lemma GroupsAreTight(alerts: seq<Alert>, minutes: int, i: nat, j: nat)
    requires NewestFirst(alerts) && i < j < |alerts| && Lead(alerts, minutes, i) == Lead(alerts, minutes, j)
    ensures Close(alerts[i], alerts[j], minutes)
    ensures alerts[i].ruleId == alerts[j].ruleId && alerts[i].createdAt.Some? && alerts[j].createdAt.Some?
    ensures 0 <= Micros(alerts[i].createdAt.value) - Micros(alerts[j].createdAt.value) <= minutes * 60_000_000
  {
    LeadProperties(alerts, minutes, i);
    LeadProperties(alerts, minutes, j);
  }

  /** Two leaders of one rule, both with a time, are more than the window apart. */
  lemma LeadersAreFarApart(alerts: seq<Alert>, minutes: int, i: nat, j: nat)
    requires i < j < |alerts| && IsLeader(alerts, minutes, i) && IsLeader(alerts, minutes, j)
    requires alerts[i].ruleId == alerts[j].ruleId && alerts[i].createdAt.Some? && alerts[j].createdAt.Some?
    ensures Abs(Micros(alerts[i].createdAt.value) - Micros(alerts[j].createdAt.value)) > minutes * 60_000_000
  {
    LeadProperties(alerts, minutes, j);
  }

  /** A group is a contiguous run of its rule's timeline. */
  lemma GroupsAreContiguous(alerts: seq<Alert>, minutes: int, i: nat, k: nat, j: nat)
    requires NewestFirst(alerts) && i < k < j < |alerts|
    requires Lead(alerts, minutes, i) == Lead(alerts, minutes, j)
    requires alerts[k].ruleId == alerts[i].ruleId && alerts[k].createdAt.Some?
    ensures Lead(alerts, minutes, k) == Lead(alerts, minutes, i)
  {
    var l := Lead(alerts, minutes, i);
    LeadProperties(alerts, minutes, i);
    LeadProperties(alerts, minutes, j);
    LeadProperties(alerts, minutes, k);
    var m := Lead(alerts, minutes, k);
    if m != l {
      LeadProperties(alerts, minutes, l);
      assert false;
    }
  }

  // --------------------------------------------------------- fewest incidents

  /** An assignment of the alerts to classes in which every two alerts of a class
      belong to one rule and lie within the window of each other. */
  predicate TightPartition(alerts: seq<Alert>, minutes: int, classes: seq<int>) {
    |classes| == |alerts|
    && forall i, j :: 0 <= i < j < |alerts| && classes[i] == classes[j] ==> Close(alerts[i], alerts[j], minutes)
  }

  function ClassesOf(alerts: seq<Alert>, classes: seq<int>, rule: Id): set<int>
    requires |classes| == |alerts|
  {
    set i | 0 <= i < |alerts| && alerts[i].ruleId == rule :: classes[i]
  }

  function LeadersOf(alerts: seq<Alert>, minutes: int, rule: Id, upTo: nat): set<nat>
    requires upTo <= |alerts|
  {
    set i: nat | i < upTo && alerts[i].ruleId == rule && IsLeader(alerts, minutes, i)
  }

  function Image(s: set<nat>, classes: seq<int>): set<int> {
    set i | i in s && i < |classes| :: classes[i]
  }

  /** Minimality: for every rule, the greedy pass opens no more incidents than
      any partition into tight classes uses. */
  lemma GreedyIsMinimal(alerts: seq<Alert>, minutes: int, classes: seq<int>, rule: Id)
    requires TightPartition(alerts, minutes, classes)
    ensures |LeadersOf(alerts, minutes, rule, |alerts|)| <= |ClassesOf(alerts, classes, rule)|
  {
    var leaders := LeadersOf(alerts, minutes, rule, |alerts|);
    forall i, j | i in leaders && j in leaders && i < j ensures classes[i] != classes[j] {
      LeadProperties(alerts, minutes, j);
    }
    ImageSize(leaders, Image(leaders, classes), i => if 0 <= i < |classes| then classes[i] else -1);
    assert Image(leaders, classes) <= ClassesOf(alerts, classes, rule);
    SubsetSize(Image(leaders, classes), ClassesOf(alerts, classes, rule));
  }

  function GreedyClasses(alerts: seq<Alert>, minutes: int): (c: seq<nat>)
    ensures |c| == |alerts|
  {
    seq(|alerts|, i requires 0 <= i < |alerts| => Lead(alerts, minutes, i))
  }

  /** And its own groups are such a partition, one class for each leader: the
      minimum is attained. */
  lemma GreedyIsTight(alerts: seq<Alert>, minutes: int, rule: Id)
    requires NewestFirst(alerts)
    ensures TightPartition(alerts, minutes, GreedyClasses(alerts, minutes))
    ensures ClassesOf(alerts, GreedyClasses(alerts, minutes), rule) == LeadersOf(alerts, minutes, rule, |alerts|)
  {
    var greedy := GreedyClasses(alerts, minutes);
    forall i, j | 0 <= i < j < |alerts| && greedy[i] == greedy[j] ensures Close(alerts[i], alerts[j], minutes) {
      GroupsAreTight(alerts, minutes, i, j);
    }
    forall c | c in ClassesOf(alerts, greedy, rule) ensures c in LeadersOf(alerts, minutes, rule, |alerts|) {
      var i :| 0 <= i < |alerts| && alerts[i].ruleId == rule && greedy[i] == c;
      LeadProperties(alerts, minutes, i);
    }
    forall l | l in LeadersOf(alerts, minutes, rule, |alerts|) ensures l in ClassesOf(alerts, greedy, rule) {
      assert greedy[l] == l;
    }
  }

  // ------------------------------------------------------------ a single sweep

  /** The group last opened for a rule, and the alert that opened it. */
  datatype Open = Open(group: nat, leader: nat)

  datatype Sweep = Sweep(groups: seq<seq<nat>>, open: map<Id, Open>)

  predicate WellIndexed(s: Sweep, upTo: nat) {
    forall r :: r in s.open ==> s.open[r].group < |s.groups| && s.open[r].leader < upTo
  }

  /** The next alert joins the group its rule opened last, or opens a group. */
  function SweepNext(alerts: seq<Alert>, minutes: int, s: Sweep, i: nat): (s': Sweep)
    requires i < |alerts| && WellIndexed(s, i)
    ensures WellIndexed(s', i + 1)
  {
    var alert := alerts[i];
    if alert.ruleId in s.open && Near(alerts[s.open[alert.ruleId].leader], alert, minutes) then
      var g := s.open[alert.ruleId].group;
      s.(groups := s.groups[g := s.groups[g] + [i]])
    else
      Sweep(s.groups + [[i]],
            if alert.createdAt.Some? then s.open[alert.ruleId := Open(|s.groups|, i)] else s.open)
  }

  /** One pass from newest to oldest that looks at each alert once and at nothing
      but the group its rule opened last. */
  function SweepTo(alerts: seq<Alert>, minutes: int, upTo: nat): (s: Sweep)
    requires upTo <= |alerts|
    ensures WellIndexed(s, upTo)
  {
    if upTo == 0 then Sweep([], map[])
    else SweepNext(alerts, minutes, SweepTo(alerts, minutes, upTo - 1), upTo - 1)
  }

  predicate TimedLeader(alerts: seq<Alert>, minutes: int, rule: Id, l: nat)
    requires l < |alerts|
  {
    IsLeader(alerts, minutes, l) && alerts[l].ruleId == rule && alerts[l].createdAt.Some?
  }

  /** What a sweep remembers: for each rule, its latest leader with a time. */
  predicate Remembers(alerts: seq<Alert>, minutes: int, upTo: nat, s: Sweep)
    requires upTo <= |alerts|
  {
    var leaders := Leaders(alerts, minutes, upTo);
    && (forall r :: r in s.open ==>
          s.open[r].group < |leaders| && leaders[s.open[r].group] == s.open[r].leader < upTo
          && TimedLeader(alerts, minutes, r, s.open[r].leader))
    && (forall l: nat :: l < upTo && IsLeader(alerts, minutes, l) && alerts[l].createdAt.Some?
          ==> alerts[l].ruleId in s.open && l <= s.open[alerts[l].ruleId].leader)
  }

  /** With the alerts newest first, only the latest leader of a rule can be close
      to the next alert of that rule. */
  lemma OnlyTheLatestLeaderMatters(alerts: seq<Alert>, minutes: int, i: nat, s: Sweep)
    requires NewestFirst(alerts) && i < |alerts| && Remembers(alerts, minutes, i, s)
    ensures var rule := alerts[i].ruleId;
      Lead(alerts, minutes, i)
      == if rule in s.open && Near(alerts[s.open[rule].leader], alerts[i], minutes) then s.open[rule].leader else i
  {
    var rule := alerts[i].ruleId;
    LeadProperties(alerts, minutes, i);
    if rule in s.open {
      NoEarlierLeader(alerts, minutes, i, s.open[rule].leader);
    }
  }

  /** A leader before the latest one of its rule is not close to what comes after. */
  lemma NoEarlierLeader(alerts: seq<Alert>, minutes: int, i: nat, latest: nat)
    requires NewestFirst(alerts) && latest < i < |alerts| && TimedLeader(alerts, minutes, alerts[i].ruleId, latest)
    ensures Lead(alerts, minutes, i) >= latest
  {
    LeadProperties(alerts, minutes, i);
    if Lead(alerts, minutes, i) < latest {
      LeadProperties(alerts, minutes, latest);
      assert false;
    }
  }

  lemma GroupOpened(alerts: seq<Alert>, minutes: int, i: nat)
    requires i < |alerts| && IsLeader(alerts, minutes, i)
    ensures Groups(alerts, minutes, i + 1) == Groups(alerts, minutes, i) + [[i]]
  {
    LeadersProperties(alerts, minutes, i);
    var leaders := Leaders(alerts, minutes, i);
    forall g | 0 <= g < |leaders| ensures leaders[g] < i {
      assert leaders[g] in leaders;
    }
    NoMembersBefore(alerts, minutes, i, i);
    var a, b := Groups(alerts, minutes, i + 1), Groups(alerts, minutes, i) + [[i]];
    assert |a| == |b|;
    assert forall g :: 0 <= g < |a| ==> a[g] == b[g];
  }

  lemma GroupExtended(alerts: seq<Alert>, minutes: int, i: nat, g: nat)
    requires i < |alerts| && g < |Leaders(alerts, minutes, i)|
    requires Leaders(alerts, minutes, i)[g] == Lead(alerts, minutes, i) < i
    ensures g < |Groups(alerts, minutes, i)|
    ensures Groups(alerts, minutes, i + 1) == Groups(alerts, minutes, i)[g := Groups(alerts, minutes, i)[g] + [i]]
  {
    LeadersProperties(alerts, minutes, i);
    var leaders := Leaders(alerts, minutes, i);
    assert Leaders(alerts, minutes, i + 1) == leaders;
    var a, b := Groups(alerts, minutes, i + 1), Groups(alerts, minutes, i)[g := Groups(alerts, minutes, i)[g] + [i]];
    forall n | 0 <= n < |leaders| ensures a[n] == b[n] {
      assert n != g ==> leaders[n] != leaders[g];
    }
  }

  /** The quadratic pass forms exactly the groups of the single sweep. */
  lemma {:induction false} SweepFormsTheGroups(alerts: seq<Alert>, minutes: int, upTo: nat)
    requires NewestFirst(alerts) && upTo <= |alerts|
    ensures SweepTo(alerts, minutes, upTo).groups == Groups(alerts, minutes, upTo)
    ensures Remembers(alerts, minutes, upTo, SweepTo(alerts, minutes, upTo))
  {
    if upTo > 0 {
      var i := upTo - 1;
      var s := SweepTo(alerts, minutes, i);
      SweepFormsTheGroups(alerts, minutes, i);
      SweepStep(alerts, minutes, i, s);
      assert SweepTo(alerts, minutes, upTo) == SweepNext(alerts, minutes, s, i);
    }
  }

  lemma SweepStep(alerts: seq<Alert>, minutes: int, i: nat, s: Sweep)
    requires NewestFirst(alerts) && i < |alerts| && WellIndexed(s, i)
    requires s.groups == Groups(alerts, minutes, i) && Remembers(alerts, minutes, i, s)
    ensures SweepNext(alerts, minutes, s, i).groups == Groups(alerts, minutes, i + 1)
    ensures Remembers(alerts, minutes, i + 1, SweepNext(alerts, minutes, s, i))
  {
    var rule := alerts[i].ruleId;
    OnlyTheLatestLeaderMatters(alerts, minutes, i, s);
    if rule in s.open && Near(alerts[s.open[rule].leader], alerts[i], minutes) {
      GroupExtended(alerts, minutes, i, s.open[rule].group);
      RemembersTheOldLeader(alerts, minutes, i, s, s.groups[s.open[rule].group := s.groups[s.open[rule].group] + [i]]);
    } else {
      GroupOpened(alerts, minutes, i);
      RemembersTheNewLeader(alerts, minutes, i, s);
    }
  }

  lemma RemembersTheOldLeader(alerts: seq<Alert>, minutes: int, i: nat, s: Sweep, groups: seq<seq<nat>>)
    requires i < |alerts| && !IsLeader(alerts, minutes, i) && Remembers(alerts, minutes, i, s)
    ensures Remembers(alerts, minutes, i + 1, Sweep(groups, s.open))
  {
  }

  lemma RemembersTheNewLeader(alerts: seq<Alert>, minutes: int, i: nat, s: Sweep)
    requires i < |alerts| && IsLeader(alerts, minutes, i) && Remembers(alerts, minutes, i, s)
    requires |s.groups| == |Leaders(alerts, minutes, i)|
    ensures Remembers(alerts, minutes, i + 1,
      Sweep(s.groups + [[i]],
            if alerts[i].createdAt.Some? then s.open[alerts[i].ruleId := Open(|s.groups|, i)] else s.open))
  {
  }

  // ---------------------------------------------------------- the reported values

  lemma {:induction false} MaxSeverityIsMax(group: seq<Alert>)
    requires group != []
    ensures exists k :: 0 <= k < |group| && group[k].severity == MaxSeverity(group)
    ensures forall k :: 0 <= k < |group| ==> Rank(group[k].severity) <= Rank(MaxSeverity(group))
  {
    if |group| == 1 {
      assert group[0].severity == MaxSeverity(group);
    } else {
      var front := group[..|group| - 1];
      MaxSeverityIsMax(front);
      var k :| 0 <= k < |front| && front[k].severity == MaxSeverity(front);
      assert group[k].severity == MaxSeverity(front);
      assert group[|group| - 1].severity == MaxSeverity(group) || group[k].severity == MaxSeverity(group);
      forall j | 0 <= j < |group| ensures Rank(group[j].severity) <= Rank(MaxSeverity(group)) {
        if j < |front| {
          assert front[j] == group[j];
        }
      }
    }
  }

  /** The stamps of a group are those of its members that have a time. */
  lemma {:induction false} StampOf(group: seq<Alert>, k: nat)
    requires k < |group| && group[k].createdAt.Some?
    ensures Iso(group[k].createdAt.value) in Stamps(group)
  {
    if k < |group| - 1 {
      StampOf(group[..|group| - 1], k);
    }
  }

  lemma {:induction false} StampSource(group: seq<Alert>, s: string) returns (k: nat)
    requires s in Stamps(group)
    ensures k < |group| && group[k].createdAt.Some? && Iso(group[k].createdAt.value) == s
  {
    k := |group| - 1;
    if s in Stamps(group[..|group| - 1]) {
      k := StampSource(group[..|group| - 1], s);
    }
  }

  ghost predicate IsStamp(s: string) {
    exists t: Time :: Iso(t) == s
  }

  lemma StampOrderIsTransitive(x: string, y: string, z: string)
    requires IsStamp(x) && IsStamp(y) && IsStamp(z)
    ensures !StringLess(x, y) && !StringLess(y, z) ==> !StringLess(x, z)
    ensures StringLess(x, y) ==> !StringLess(y, x)
    ensures !StringLess(x, x)
  {
    var a: Time :| Iso(a) == x;
    var b: Time :| Iso(b) == y;
    var c: Time :| Iso(c) == z;
    IsoOrder(a, b); IsoOrder(b, c); IsoOrder(a, c); IsoOrder(b, a); IsoOrder(a, a);
  }

  predicate IsLeast(stamps: seq<string>, lo: string) {
    lo in stamps && forall s :: s in stamps ==> !StringLess(s, lo)
  }

  lemma LesserOfTwo(stamps: seq<string>, lo: string, last: string)
    requires IsLeast(stamps, lo) && IsStamp(last) && forall s :: s in stamps ==> IsStamp(s)
    ensures IsLeast(stamps + [last], if StringLess(last, lo) then last else lo)
  {
    StampOrderIsTransitive(last, last, last);
    forall s | s in stamps ensures !StringLess(s, if StringLess(last, lo) then last else lo) {
      StampOrderIsTransitive(s, lo, last);
      StampOrderIsTransitive(last, lo, s);
    }
  }

  lemma {:induction false} LeastIsLeast(stamps: seq<string>)
    requires forall s :: s in stamps ==> IsStamp(s)
    ensures stamps == [] <==> Least(stamps) == None
    ensures stamps != [] ==> IsLeast(stamps, Least(stamps).value)
  {
    if stamps != [] {
      var front, last := stamps[..|stamps| - 1], stamps[|stamps| - 1];
      assert stamps == front + [last];
      LeastIsLeast(front);
      StampOrderIsTransitive(last, last, last);
      var best := Least(front);
      if best.Some? {
        LesserOfTwo(front, best.value, last);
        assert IsLeast(stamps, if StringLess(last, best.value) then last else best.value);
      } else {
        assert stamps == [last] && IsLeast([last], last);
      }
    }
  }

  predicate IsGreatest(stamps: seq<string>, hi: string) {
    hi in stamps && forall s :: s in stamps ==> !StringLess(hi, s)
  }

  lemma GreaterOfTwo(stamps: seq<string>, hi: string, last: string)
    requires IsGreatest(stamps, hi) && IsStamp(last) && forall s :: s in stamps ==> IsStamp(s)
    ensures IsGreatest(stamps + [last], if StringLess(hi, last) then last else hi)
  {
    StampOrderIsTransitive(last, last, last);
    forall s | s in stamps ensures !StringLess(if StringLess(hi, last) then last else hi, s) {
      StampOrderIsTransitive(last, hi, s);
      StampOrderIsTransitive(hi, last, s);
    }
  }

  lemma {:induction false} GreatestIsGreatest(stamps: seq<string>)
    requires forall s :: s in stamps ==> IsStamp(s)
    ensures stamps == [] <==> Greatest(stamps) == None
    ensures stamps != [] ==> IsGreatest(stamps, Greatest(stamps).value)
  {
    if stamps != [] {
      var front, last := stamps[..|stamps| - 1], stamps[|stamps| - 1];
      assert stamps == front + [last];
      GreatestIsGreatest(front);
      StampOrderIsTransitive(last, last, last);
      var best := Greatest(front);
      if best.Some? {
        GreaterOfTwo(front, best.value, last);
        assert IsGreatest(stamps, if StringLess(best.value, last) then last else best.value);
      } else {
        assert stamps == [last] && IsGreatest([last], last);
      }
    }
  }

  /** The earliest member with a time, by the calendar. */
  predicate Earliest(group: seq<Alert>, k: nat) {
    k < |group| && group[k].createdAt.Some?
    && forall j :: 0 <= j < |group| && group[j].createdAt.Some?
         ==> Micros(group[k].createdAt.value) <= Micros(group[j].createdAt.value)
  }

  predicate Latest(group: seq<Alert>, k: nat) {
    k < |group| && group[k].createdAt.Some?
    && forall j :: 0 <= j < |group| && group[j].createdAt.Some?
         ==> Micros(group[j].createdAt.value) <= Micros(group[k].createdAt.value)
  }

  /** The worst severity by name; one that has none of the four names counts for
      nothing, and if none has, the first stands. */
  ghost function WorstSeverity(group: seq<Alert>): string
    requires group != []
  {
    if IsOneOf(group, "critical") then "critical"
    else if IsOneOf(group, "high") then "high"
    else if IsOneOf(group, "medium") then "medium"
    else if IsOneOf(group, "low") then "low"
    else group[0].severity
  }

  ghost predicate IsOneOf(group: seq<Alert>, severity: string) {
    exists k :: 0 <= k < |group| && group[k].severity == severity
  }

  /** The severity reported is the worst by name. */
  lemma SeverityIsExact(group: seq<Alert>)
    requires group != []
    ensures Report(group).severity == WorstSeverity(group)
    ensures IsOneOf(group, Report(group).severity)
  {
    MaxSeverityIsMax(group);
    var worst := MaxSeverity(group);
    forall name | IsOneOf(group, name) ensures Rank(name) <= Rank(worst) {
      var k :| 0 <= k < |group| && group[k].severity == name;
    }
    NamesAreRanked(worst);
    if Rank(worst) == 0 {
      UnnamedIsFirst(group);
    }
  }

  lemma NamesAreRanked(severity: string)
    ensures Rank(severity) == 4 <==> severity == "critical"
    ensures Rank(severity) == 3 <==> severity == "high"
    ensures Rank(severity) == 2 <==> severity == "medium"
    ensures Rank(severity) == 1 <==> severity == "low"
    ensures Rank("critical") > Rank("high") > Rank("medium") > Rank("low") > 0
  {
  }

  /** Ties go to the first. */
  lemma {:induction false} UnnamedIsFirst(group: seq<Alert>)
    requires group != [] && Rank(MaxSeverity(group)) == 0
    ensures MaxSeverity(group) == group[0].severity
  {
    if |group| > 1 {
      UnnamedIsFirst(group[..|group| - 1]);
    }
  }

  /** The first and last times printed, though chosen by comparing strings, are
      those of the earliest and latest members by the calendar. */
  lemma TimesAreExact(group: seq<Alert>)
    requires group != []
    requires exists k :: 0 <= k < |group| && group[k].createdAt.Some?
    ensures exists k: nat :: Earliest(group, k) && Report(group).firstAlertAt == Some(Iso(group[k].createdAt.value))
    ensures exists k: nat :: Latest(group, k) && Report(group).lastAlertAt == Some(Iso(group[k].createdAt.value))
  {
    var stamps := Stamps(group);
    forall s | s in stamps ensures IsStamp(s) {
      var k := StampSource(group, s);
    }
    var some :| 0 <= some < |group| && group[some].createdAt.Some?;
    StampOf(group, some);
    LeastIsLeast(stamps);
    GreatestIsGreatest(stamps);
    var lo := StampSource(group, Least(stamps).value);
    var hi := StampSource(group, Greatest(stamps).value);
    forall j: nat | j < |group| && group[j].createdAt.Some?
      ensures Micros(group[lo].createdAt.value) <= Micros(group[j].createdAt.value) <= Micros(group[hi].createdAt.value)
    {
      StampOf(group, j);
      IsoOrder(group[j].createdAt.value, group[lo].createdAt.value);
      IsoOrder(group[hi].createdAt.value, group[j].createdAt.value);
    }
    assert Earliest(group, lo) && Latest(group, hi);
  }

  /** A group none of whose members has a time reports none. */
  lemma NoTimesReported(group: seq<Alert>)
    requires group != [] && forall k :: 0 <= k < |group| ==> group[k].createdAt.None?
    ensures Report(group).firstAlertAt == None && Report(group).lastAlertAt == None
  {
    if Stamps(group) != [] {
      var k := StampSource(group, Stamps(group)[0]);
    }
  }

  // --------------------------------------------------------- what is answered

  predicate InRange(alerts: seq<Alert>, g: seq<nat>) {
    g != [] && forall p :: 0 <= p < |g| ==> g[p] < |alerts|
  }

  /** The incident is that of the alerts `g`: their number and ids in order, the rule,
      the status and the id of the first, the worst severity, the earliest and the
      latest time. */
  ghost predicate Describes(alerts: seq<Alert>, g: seq<nat>, incident: Incident) {
    && InRange(alerts, g)
    && incident.alertCount == |incident.alertIds| == |g|
    && (forall p :: 0 <= p < |g| ==> incident.alertIds[p] == alerts[g[p]].id)
    && incident.incidentId == alerts[g[0]].id
    && incident.ruleId == alerts[g[0]].ruleId
    && incident.status == alerts[g[0]].status
    && incident.severity == WorstSeverity(At(alerts, g))
    && Spans(alerts, g, incident.firstAlertAt, incident.lastAlertAt)
  }

  ghost predicate Spans(alerts: seq<Alert>, g: seq<nat>, first: Option<string>, last: Option<string>)
    requires InRange(alerts, g)
  {
    if forall p :: 0 <= p < |g| ==> alerts[g[p]].createdAt.None? then first == None && last == None
    else IsEarliestOf(alerts, g, first) && IsLatestOf(alerts, g, last)
  }

  function At(alerts: seq<Alert>, g: seq<nat>): seq<Alert>
    requires InRange(alerts, g)
  {
    seq(|g|, p requires 0 <= p < |g| => alerts[g[p]])
  }

  predicate Dated(alerts: seq<Alert>, g: seq<nat>, p: int, stamp: Option<string>)
    requires InRange(alerts, g)
  {
    0 <= p < |g| && alerts[g[p]].createdAt.Some? && stamp == Some(Iso(alerts[g[p]].createdAt.value))
  }

  /** The stamp is that of a dated alert of `g`, and none of them is earlier. */
  ghost predicate IsEarliestOf(alerts: seq<Alert>, g: seq<nat>, stamp: Option<string>)
    requires InRange(alerts, g)
  {
    exists p :: Dated(alerts, g, p, stamp) && forall q :: 0 <= q < |g| && alerts[g[q]].createdAt.Some? ==>
      Micros(alerts[g[p]].createdAt.value) <= Micros(alerts[g[q]].createdAt.value)
  }

  /** The stamp is that of a dated alert of `g`, and none of them is later. */
  ghost predicate IsLatestOf(alerts: seq<Alert>, g: seq<nat>, stamp: Option<string>)
    requires InRange(alerts, g)
  {
    exists p :: Dated(alerts, g, p, stamp) && forall q :: 0 <= q < |g| && alerts[g[q]].createdAt.Some? ==>
      Micros(alerts[g[q]].createdAt.value) <= Micros(alerts[g[p]].createdAt.value)
  }

  lemma ReportDescribes(alerts: seq<Alert>, g: seq<nat>)
    requires InRange(alerts, g)
    ensures Describes(alerts, g, Report(At(alerts, g)))
  {
    SeverityIsExact(At(alerts, g));
    ReportSpans(alerts, g);
  }

  lemma ReportSpans(alerts: seq<Alert>, g: seq<nat>)
    requires InRange(alerts, g)
    ensures Spans(alerts, g, Report(At(alerts, g)).firstAlertAt, Report(At(alerts, g)).lastAlertAt)
  {
    var group := At(alerts, g);
    if some :| 0 <= some < |g| && alerts[g[some]].createdAt.Some? {
      TimesAreReported(alerts, g, some);
    } else {
      assert forall k :: 0 <= k < |group| ==> group[k] == alerts[g[k]];
      NoTimesReported(group);
    }
  }

  lemma TimesAreReported(alerts: seq<Alert>, g: seq<nat>, some: nat)
    requires InRange(alerts, g) && some < |g| && alerts[g[some]].createdAt.Some?
    ensures IsEarliestOf(alerts, g, Report(At(alerts, g)).firstAlertAt)
    ensures IsLatestOf(alerts, g, Report(At(alerts, g)).lastAlertAt)
  {
    var group := At(alerts, g);
    assert group[some].createdAt.Some?;
    TimesAreExact(group);
    var lo: nat :| Earliest(group, lo) && Report(group).firstAlertAt == Some(Iso(group[lo].createdAt.value));
    var hi: nat :| Latest(group, hi) && Report(group).lastAlertAt == Some(Iso(group[hi].createdAt.value));
    EarliestOf(alerts, g, lo);
    LatestOf(alerts, g, hi);
  }

  lemma EarliestOf(alerts: seq<Alert>, g: seq<nat>, p: nat)
    requires InRange(alerts, g) && Earliest(At(alerts, g), p)
    ensures IsEarliestOf(alerts, g, Some(Iso(At(alerts, g)[p].createdAt.value)))
  {
    var group := At(alerts, g);
    assert Dated(alerts, g, p, Some(Iso(group[p].createdAt.value)));
    assert forall q :: 0 <= q < |g| ==> alerts[g[q]] == group[q];
  }

  lemma LatestOf(alerts: seq<Alert>, g: seq<nat>, p: nat)
    requires InRange(alerts, g) && Latest(At(alerts, g), p)
    ensures IsLatestOf(alerts, g, Some(Iso(At(alerts, g)[p].createdAt.value)))
  {
    var group := At(alerts, g);
    assert Dated(alerts, g, p, Some(Iso(group[p].createdAt.value)));
    assert forall q :: 0 <= q < |g| ==> alerts[g[q]] == group[q];
  }

  /** The reports are those of the groups, one for each, in order. */
  lemma ReportsDescribeGroups(alerts: seq<Alert>, minutes: int)
    ensures forall l: nat :: l in Leaders(alerts, minutes, |alerts|) ==> l < |alerts| && IsLeader(alerts, minutes, l)
    ensures var reports := Reports(alerts, minutes, Leaders(alerts, minutes, |alerts|));
      var groups := Groups(alerts, minutes, |alerts|);
      DescribesAll(alerts, groups, reports)
  {
    var leaders := Leaders(alerts, minutes, |alerts|);
    LeadersProperties(alerts, minutes, |alerts|);
    forall n | 0 <= n < |leaders|
      ensures Describes(alerts, Groups(alerts, minutes, |alerts|)[n], Reports(alerts, minutes, leaders)[n])
    {
      assert leaders[n] in leaders;
      OpenedDescribes(alerts, minutes, leaders[n]);
    }
  }

  lemma OpenedDescribes(alerts: seq<Alert>, minutes: int, l: nat)
    requires l < |alerts| && IsLeader(alerts, minutes, l)
    ensures Describes(alerts, Members(alerts, minutes, l, |alerts|), Opened(alerts, minutes, l))
  {
    var m := Members(alerts, minutes, l, |alerts|);
    MembersProperties(alerts, minutes, l, |alerts|);
    assert l in m;
    forall p | 0 <= p < |m| ensures m[p] < |alerts| {
      assert m[p] in m;
    }
    ReportDescribes(alerts, m);
    assert Pick(alerts, m) == At(alerts, m);
  }

  predicate Reported(incidents: seq<Incident>, n: int, p: int, id: Id) {
    0 <= n < |incidents| && 0 <= p < |incidents[n].alertIds| && incidents[n].alertIds[p] == id
  }

  ghost predicate DescribesAll(alerts: seq<Alert>, groups: seq<seq<nat>>, incidents: seq<Incident>) {
    |incidents| == |groups| && forall n :: 0 <= n < |groups| ==> Describes(alerts, groups[n], incidents[n])
  }

  /** Wherever an id is reported there is an alert, and it is the alert of that id. */
  lemma ReportedAlert(alerts: seq<Alert>, groups: seq<seq<nat>>, incidents: seq<Incident>, n: int, p: int, id: Id)
    requires DistinctIds(alerts) && DescribesAll(alerts, groups, incidents) && Reported(incidents, n, p, id)
    ensures 0 <= p < |groups[n]| && groups[n][p] < |alerts| && alerts[groups[n][p]].id == id
    ensures forall k :: 0 <= k < |alerts| && alerts[k].id == id ==> groups[n][p] == k
  {
    assert Describes(alerts, groups[n], incidents[n]);
  }

  ghost predicate OnlyReport(incidents: seq<Incident>, n: int, p: int, id: Id) {
    Reported(incidents, n, p, id) && forall n', p' :: Reported(incidents, n', p', id) ==> n' == n && p' == p
  }

  lemma OnePlaceOneReport(alerts: seq<Alert>, groups: seq<seq<nat>>, incidents: seq<Incident>, n: int, p: int, k: nat)
    requires DistinctIds(alerts) && DescribesAll(alerts, groups, incidents)
    requires k < |alerts| && OnlyPlace(groups, n, p, k)
    ensures OnlyReport(incidents, n, p, alerts[k].id)
  {
    assert Describes(alerts, groups[n], incidents[n]);
    assert Reported(incidents, n, p, alerts[k].id);
    forall n', p' | Reported(incidents, n', p', alerts[k].id) ensures n' == n && p' == p {
      ReportedAlert(alerts, groups, incidents, n', p', alerts[k].id);
    }
  }

  /** Every alert is reported, by its id, in exactly one incident and exactly once. */
  lemma EveryAlertIsReportedOnce(alerts: seq<Alert>, minutes: int, incidents: seq<Incident>, k: nat)
    returns (n: nat, p: nat)
    requires DistinctIds(alerts) && k < |alerts|
    requires DescribesAll(alerts, Groups(alerts, minutes, |alerts|), incidents)
    ensures OnlyReport(incidents, n, p, alerts[k].id)
  {
    n, p := GroupsPartition(alerts, minutes, k);
    OnePlaceOneReport(alerts, Groups(alerts, minutes, |alerts|), incidents, n, p, k);
  }
}
