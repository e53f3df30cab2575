/** Every query is counted twice, for its view and zone and for its zone alone
    (src/log_topn.c:145-148). The two kinds of counts agree in every run without eviction. */
module Fanout {
  import opened NameTree
  import opened Sealing
  import opened ViewModel
  import opened ViewStats
  import opened Sequences

  datatype Line = Line(view: string, zone: string, domain: string, ip: string, rtype: string, rcode: string)
  {
    function ForView(): Query {
      Query(Key(view, zone), domain, ip, rtype, rcode)
    }

    function ForZone(): Query {
      Query(Key("*", zone), domain, ip, rtype, rcode)
    }

    ghost predicate Valid() {
      forall u :: Ask(OfNames, u) ==> Proper()
    }

    predicate Proper() {
      && view != "*" && '$' !in view && '$' !in zone && Fits(domain) && Fits(ip)
      && |Key(view, zone)| < MAX_VIEW_LENGTH && |Key("*", zone)| < MAX_VIEW_LENGTH
    }
  }

  function Key(view: string, zone: string): string {
    view + "$" + zone
  }

  lemma KeyIsUnique(view: string, zone: string, view': string, zone': string)
    requires '$' !in view && '$' !in view' && Key(view, zone) == Key(view', zone')
    ensures view == view' && zone == zone'
  {
    var k, k' := Key(view, zone), Key(view', zone');
    assert k[|view|] == '$' && k'[|view'|] == '$';
    assert forall i :: 0 <= i < |view| ==> k[i] == view[i];
    assert forall i :: 0 <= i < |view'| ==> k'[i] == view'[i];
    assert |view| == |view'|;
    assert view == k[..|view|] && zone == k[|view| + 1..];
    assert view' == k'[..|view'|] && zone' == k'[|view'| + 1..];
  }

  /** A query counted where there is room. */
  function LogFree(v: Views, q: Query): Views
    requires Loggable(q)
  {
    var met := v.Meet(q.view);
    if q.view in met.stats then Views(met.stats[q.view := CountAll(met.stats[q.view], q)], met.order) else met
  }

  lemma LogFreeIsLog(v: Views, q: Query, limit: nat)
    requires v.Fair() && Loggable(q) && (q.view in v.stats || |q.view| <= MAX_VIEW_LENGTH)
    requires v.Meet(q.view).Listed() && v.Meet(q.view).Size() <= limit
    ensures v.Log(q, limit) == LogFree(v, q)
  {
    LogMeans(v, q, limit);
  }

  /** One of the counts of a view. */
  datatype Measure = Domain(name: string) | Ip(name: string) | Rcode(i: nat) | Rtype(i: nat) | AllRcodes | AllRtypes

  function Total(s: seq<nat>): nat {
    if s == [] then 0 else Total(s[..|s| - 1]) + s[|s| - 1]
  }

  function Value(s: Stats, m: Measure): nat {
    match m
    case Domain(name) => if name in s.names then s.names[name] else 0
    case Ip(name) => if name in s.ips then s.ips[name] else 0
    case Rcode(i) => if i < |s.rcode| then s.rcode[i] else 0
    case Rtype(i) => if i < |s.rtype| then s.rtype[i] else 0
    case AllRcodes => Total(s.rcode)
    case AllRtypes => Total(s.rtype)
  }

  function Hit(b: bool): nat {
    if b then 1 else 0
  }

  /** What one query adds to a count. */
  function Share(domain: string, ip: string, rtype: string, rcode: string, m: Measure): nat {
    match m
    case Domain(name) => Hit(domain != "" && |domain| < MAX_NAME_LEN && Normal(domain) == name)
    case Ip(name) => Hit(ip != "" && |ip| < MAX_NAME_LEN && Normal(ip) == name)
    case Rcode(i) => Hit(TableIndex(RCODES, rcode) == i)
    case Rtype(i) => Hit(TableIndex(RTYPES, rtype) == i)
    case AllRcodes => 1
    case AllRtypes => 1
  }

  lemma {:induction false} TotalUpdate(s: seq<nat>, i: nat, x: nat)
    requires i < |s|
    ensures Total(s[i := x]) == Total(s) - s[i] + x
  {
    var n := |s| - 1;
    if i < n {
      TotalUpdate(s[..n], i, x);
      assert s[i := x][..n] == s[..n][i := x];
    } else {
      assert s[i := x][..n] == s[..n];
    }
  }

  lemma {:induction false} TotalZero(n: nat)
    ensures Total(seq(n, i => 0)) == 0
  {
    if n > 0 {
      TotalZero(n - 1);
      assert seq(n, i => 0)[..n - 1] == seq(n - 1, i => 0);
    }
  }

  predicate Tabled(s: Stats) {
    |s.rcode| == |RCODES| && |s.rtype| == |RTYPES|
  }

  lemma CountNameAdds(s: Stats, name: string, m: Measure)
    requires Fits(name)
    ensures Value(s.CountName(name), m) ==
      Value(s, m) + if m.Domain? then Hit(name != "" && |name| < MAX_NAME_LEN && Normal(name) == m.name) else 0
    ensures s.CountName(name).rcode == s.rcode && s.CountName(name).rtype == s.rtype
  {
    if m.Domain? && name != "" {
      OneMoreAdds(s.names, Normal(name), m.name);
    }
  }

  lemma CountIpAdds(s: Stats, ip: string, m: Measure)
    requires Fits(ip)
    ensures Value(s.CountIp(ip), m) ==
      Value(s, m) + if m.Ip? then Hit(ip != "" && |ip| < MAX_NAME_LEN && Normal(ip) == m.name) else 0
    ensures s.CountIp(ip).rcode == s.rcode && s.CountIp(ip).rtype == s.rtype
  {
    if m.Ip? && ip != "" {
      OneMoreAdds(s.ips, Normal(ip), m.name);
    }
  }

  lemma CountRtypeAdds(s: Stats, i: nat, m: Measure)
    requires i < |s.rtype|
    ensures Value(s.CountRtype(i), m) == Value(s, m) + if m.Rtype? then Hit(i == m.i) else if m.AllRtypes? then 1 else 0
    ensures s.CountRtype(i).rcode == s.rcode && |s.CountRtype(i).rtype| == |s.rtype|
  {
    TotalUpdate(s.rtype, i, s.rtype[i] + 1);
  }

  lemma CountRcodeAdds(s: Stats, i: nat, m: Measure)
    requires i < |s.rcode|
    ensures Value(s.CountRcode(i), m) == Value(s, m) + if m.Rcode? then Hit(i == m.i) else if m.AllRcodes? then 1 else 0
    ensures s.CountRcode(i).rtype == s.rtype && |s.CountRcode(i).rcode| == |s.rcode|
  {
    TotalUpdate(s.rcode, i, s.rcode[i] + 1);
  }

  lemma CountAllAdds(s: Stats, q: Query, m: Measure)
    requires Loggable(q) && Tabled(s)
    ensures Tabled(CountAll(s, q))
    ensures Value(CountAll(s, q), m) == Value(s, m) + Share(q.domain, q.ip, q.rtype, q.rcode, m)
  {
    var a := s.CountName(q.domain);
    var b := a.CountIp(q.ip);
    var c := b.CountRtype(TableIndex(RTYPES, q.rtype));
    CountNameAdds(s, q.domain, m);
    CountIpAdds(a, q.ip, m);
    CountRtypeAdds(b, TableIndex(RTYPES, q.rtype), m);
    CountRcodeAdds(c, TableIndex(RCODES, q.rcode), m);
  }

  lemma OneMoreAdds(counts: map<string, nat>, key: string, name: string)
    ensures var after := OneMore(counts, key);
      (if name in after then after[name] else 0) == (if name in counts then counts[name] else 0) + Hit(key == name)
  {
  }

  lemma NewStatsIsZero(m: Measure)
    ensures Tabled(NewStats()) && Value(NewStats(), m) == 0
  {
    TotalZero(|RCODES|);
    TotalZero(|RTYPES|);
  }

  // ---------- runs ----------

  function CountIn(v: Views, key: string, m: Measure): nat {
    if key in v.stats then Value(v.stats[key], m) else 0
  }

  predicate AllTabled(v: Views) {
    forall s :: s in v.stats ==> Tabled(v.stats[s])
  }

  lemma LogFreeAdds(v: Views, q: Query, key: string, m: Measure)
    requires Loggable(q) && AllTabled(v)
    ensures AllTabled(LogFree(v, q))
    ensures LogFree(v, q).stats.Keys == v.stats.Keys + {q.view}
    ensures CountIn(LogFree(v, q), key, m) ==
      CountIn(v, key, m) + if key == q.view then Share(q.domain, q.ip, q.rtype, q.rcode, m) else 0
  {
    var met := v.Meet(q.view);
    NewStatsIsZero(m);
    CountAllAdds(met.stats[q.view], q, m);
  }

  ghost predicate AllValid(lines: seq<Line>) {
    forall k :: 0 <= k < |lines| ==> lines[k].Valid()
  }

  /** The state after the lines have been handled, with room for all. */
  ghost function Run(lines: seq<Line>): Views
    requires AllValid(lines)
  {
    if lines == [] then Views(map[], [])
    else
      assert Ask(OfNames, 0);
      var l := lines[|lines| - 1];
      LogFree(LogFree(Run(lines[..|lines| - 1]), l.ForView()), l.ForZone())
  }

  /** What the lines of a zone add to a count, all of them or those of one view. */
  function ZoneShare(lines: seq<Line>, zone: string, m: Measure): nat
  {
    if lines == [] then 0
    else
      var l := lines[|lines| - 1];
      ZoneShare(lines[..|lines| - 1], zone, m)
      + if l.zone == zone then Share(l.domain, l.ip, l.rtype, l.rcode, m) else 0
  }

  function ViewShare(lines: seq<Line>, view: string, zone: string, m: Measure): nat
  {
    if lines == [] then 0
    else
      var l := lines[|lines| - 1];
      ViewShare(lines[..|lines| - 1], view, zone, m)
      + if l.view == view && l.zone == zone then Share(l.domain, l.ip, l.rtype, l.rcode, m) else 0
  }

  lemma LineLogs(l: Line)
    requires l.Valid()
    ensures Loggable(l.ForView()) && Loggable(l.ForZone())
  {
    assert Ask(OfNames, 0);
  }

  lemma LineKeys(l: Line, view: string, zone: string)
    requires l.Valid() && '$' !in view && view != "*"
    ensures Key(view, zone) == l.ForView().view <==> view == l.view && zone == l.zone
    ensures Key(view, zone) != l.ForZone().view
    ensures Key("*", zone) != l.ForView().view
    ensures Key("*", zone) == l.ForZone().view <==> zone == l.zone
  {
    assert Ask(OfNames, 0);
    if Key(view, zone) == l.ForView().view {
      KeyIsUnique(view, zone, l.view, l.zone);
    }
    if Key("*", zone) == l.ForZone().view {
      KeyIsUnique("*", zone, "*", l.zone);
    }
    assert Key(view, zone) == l.ForZone().view ==> view == "*" by {
      if Key(view, zone) == l.ForZone().view { KeyIsUnique(view, zone, "*", l.zone); }
    }
    assert Key("*", zone) == l.ForView().view ==> l.view == "*" by {
      if Key("*", zone) == l.ForView().view { KeyIsUnique("*", zone, l.view, l.zone); }
    }
  }

  /** A line is counted in the entry of its view and zone and in that of its zone. */
  lemma LineCounts(v: Views, l: Line, view: string, zone: string, m: Measure)
    requires l.Valid() && Loggable(l.ForView()) && Loggable(l.ForZone()) && '$' !in view && view != "*" && AllTabled(v)
    ensures var w := LogFree(LogFree(v, l.ForView()), l.ForZone());
      var share := Share(l.domain, l.ip, l.rtype, l.rcode, m);
      && AllTabled(w)
      && CountIn(w, Key(view, zone), m) ==
        CountIn(v, Key(view, zone), m) + (if l.view == view && l.zone == zone then share else 0)
      && CountIn(w, Key("*", zone), m) == CountIn(v, Key("*", zone), m) + if l.zone == zone then share else 0
  {
    LineKeys(l, view, zone);
    var w := LogFree(v, l.ForView());
    LogFreeAdds(v, l.ForView(), Key(view, zone), m);
    LogFreeAdds(v, l.ForView(), Key("*", zone), m);
    LogFreeAdds(w, l.ForZone(), Key(view, zone), m);
    LogFreeAdds(w, l.ForZone(), Key("*", zone), m);
  }

  /** After any run each entry counts exactly the lines of its view and zone, or of its zone. */
  lemma {:induction false} RunCounts(lines: seq<Line>, view: string, zone: string, m: Measure)
    requires AllValid(lines) && '$' !in view && view != "*"
    ensures AllTabled(Run(lines))
    ensures CountIn(Run(lines), Key(view, zone), m) == ViewShare(lines, view, zone, m)
    ensures CountIn(Run(lines), Key("*", zone), m) == ZoneShare(lines, zone, m)
  {
    if lines != [] {
      var front, l := lines[..|lines| - 1], lines[|lines| - 1];
      RunCounts(front, view, zone, m);
      LineLogs(l);
      LineCounts(Run(front), l, view, zone, m);
    }
  }

  /** The views that occur, each once. */
  function Seen(lines: seq<Line>): seq<string> {
    if lines == [] then []
    else
      var front, view := Seen(lines[..|lines| - 1]), lines[|lines| - 1].view;
      if view in front then front else front + [view]
  }

  function SumShares(views: seq<string>, lines: seq<Line>, zone: string, m: Measure): nat
  {
    if views == [] then 0
    else SumShares(views[..|views| - 1], lines, zone, m) + ViewShare(lines, views[|views| - 1], zone, m)
  }

  lemma {:induction false} SumSharesNext(views: seq<string>, lines: seq<Line>, zone: string, m: Measure)
    requires lines != [] && Distinct(views)
    ensures var l := lines[|lines| - 1];
      SumShares(views, lines, zone, m) == SumShares(views, lines[..|lines| - 1], zone, m)
        + if l.view in views && l.zone == zone then Share(l.domain, l.ip, l.rtype, l.rcode, m) else 0
  {
    if views != [] {
      var front, last := views[..|views| - 1], views[|views| - 1];
      SumSharesNext(front, lines, zone, m);
      assert last !in front;
      assert forall x :: x in views <==> x in front || x == last;
    }
  }

  lemma {:induction false} UnseenIsZero(lines: seq<Line>, view: string, zone: string, m: Measure)
    requires view !in Seen(lines)
    ensures ViewShare(lines, view, zone, m) == 0
  {
    if lines != [] {
      UnseenIsZero(lines[..|lines| - 1], view, zone, m);
    }
  }

  lemma {:induction false} SeenIsDistinct(lines: seq<Line>)
    ensures Distinct(Seen(lines))
  {
    if lines != [] {
      SeenIsDistinct(lines[..|lines| - 1]);
    }
  }

  /** The lines of a zone are the lines of its views. */
  lemma {:induction false} ZoneIsSum(lines: seq<Line>, zone: string, m: Measure)
    ensures ZoneShare(lines, zone, m) == SumShares(Seen(lines), lines, zone, m)
  {
    if lines != [] {
      var front, l := lines[..|lines| - 1], lines[|lines| - 1];
      ZoneIsSum(front, zone, m);
      SeenIsDistinct(lines);
      SumSharesNext(Seen(lines), lines, zone, m);
      SeenNext(front, l.view, Seen(lines), zone, m);
    }
  }

  lemma SeenNext(front: seq<Line>, view: string, seen: seq<string>, zone: string, m: Measure)
    requires seen == if view in Seen(front) then Seen(front) else Seen(front) + [view]
    ensures view in seen && SumShares(seen, front, zone, m) == SumShares(Seen(front), front, zone, m)
  {
    if view !in Seen(front) {
      UnseenIsZero(front, view, zone, m);
      assert seen[..|seen| - 1] == Seen(front);
    }
  }

  function SumCounts(v: Views, views: seq<string>, zone: string, m: Measure): nat {
    if views == [] then 0
    else SumCounts(v, views[..|views| - 1], zone, m) + CountIn(v, Key(views[|views| - 1], zone), m)
  }

  lemma {:induction false} SumCountsIsShares(lines: seq<Line>, views: seq<string>, zone: string, m: Measure)
    requires AllValid(lines) && forall k :: 0 <= k < |views| ==> '$' !in views[k] && views[k] != "*"
    ensures SumCounts(Run(lines), views, zone, m) == SumShares(views, lines, zone, m)
  {
    if views != [] {
      SumCountsIsShares(lines, views[..|views| - 1], zone, m);
      RunCounts(lines, views[|views| - 1], zone, m);
    }
  }

  lemma {:induction false} SeenIsNamed(lines: seq<Line>, k: nat)
    requires AllValid(lines) && k < |Seen(lines)|
    ensures '$' !in Seen(lines)[k] && Seen(lines)[k] != "*"
  {
    assert Ask(OfNames, 0);
    if k < |Seen(lines[..|lines| - 1])| {
      SeenIsNamed(lines[..|lines| - 1], k);
    }
  }

  /** Conservation: for every zone and every count, the entry of the zone holds the sum over the
      entries of its views. */
  lemma ZoneHoldsSum(lines: seq<Line>, zone: string, m: Measure)
    requires AllValid(lines)
    ensures CountIn(Run(lines), Key("*", zone), m) == SumCounts(Run(lines), Seen(lines), zone, m)
  {
    RunCounts(lines, "", zone, m);
    forall k | 0 <= k < |Seen(lines)| ensures '$' !in Seen(lines)[k] && Seen(lines)[k] != "*" {
      SeenIsNamed(lines, k);
    }
    SumCountsIsShares(lines, Seen(lines), zone, m);
    ZoneIsSum(lines, zone, m);
  }

  /** Nothing else is counted: every entry is that of a zone or of one of the views. */
  lemma {:induction false} RunKeys(lines: seq<Line>, key: string)
    requires AllValid(lines) && key in Run(lines).stats
    ensures exists k :: 0 <= k < |lines| && (key == lines[k].ForView().view || key == lines[k].ForZone().view)
  {
    var front, l := lines[..|lines| - 1], lines[|lines| - 1];
    var v := Run(front);
    NoKeys(front);
    LineLogs(l);
    LogFreeAdds(v, l.ForView(), key, AllRcodes);
    LogFreeAdds(LogFree(v, l.ForView()), l.ForZone(), key, AllRcodes);
    if key in v.stats {
      RunKeys(front, key);
      var k :| 0 <= k < |front| && (key == front[k].ForView().view || key == front[k].ForZone().view);
      FrontAt(lines, k);
    } else {
      assert lines[|lines| - 1] == l;
    }
  }

  lemma NoKeys(lines: seq<Line>)
    requires AllValid(lines)
    ensures AllTabled(Run(lines))
  {
    RunCounts(lines, "", "", AllRcodes);
  }

  /** How many times a query was handled for the entry. */
  function Handled(lines: seq<Line>, key: string): nat {
    if lines == [] then 0
    else
      var l := lines[|lines| - 1];
      Handled(lines[..|lines| - 1], key) + Hit(l.ForView().view == key) + Hit(l.ForZone().view == key)
  }

  /** In every entry the response codes, and the record types, add up to the number of queries. */
  lemma {:induction false} CodesAddUp(lines: seq<Line>, key: string)
    requires AllValid(lines)
    ensures CountIn(Run(lines), key, AllRcodes) == CountIn(Run(lines), key, AllRtypes) == Handled(lines, key)
  {
    if lines != [] {
      var front, l := lines[..|lines| - 1], lines[|lines| - 1];
      CodesAddUp(front, key);
      NoKeys(front);
      LineLogs(l);
      CodesNext(Run(front), l.ForView(), key);
      CodesNext(LogFree(Run(front), l.ForView()), l.ForZone(), key);
    }
  }

  lemma CodesNext(v: Views, q: Query, key: string)
    requires Loggable(q) && AllTabled(v)
    ensures AllTabled(LogFree(v, q))
    ensures CountIn(LogFree(v, q), key, AllRcodes) == CountIn(v, key, AllRcodes) + Hit(key == q.view)
    ensures CountIn(LogFree(v, q), key, AllRtypes) == CountIn(v, key, AllRtypes) + Hit(key == q.view)
  {
    LogFreeAdds(v, q, key, AllRcodes);
    LogFreeAdds(v, q, key, AllRtypes);
  }

  // ---------- what an entry has been given to count ----------

  /** The line is for the entry of the zone and the view, or of the zone alone, which stands under "*". */
  predicate Concerns(l: Line, view: string, zone: string) {
    l.zone == zone && (view == "*" || l.view == view)
  }

  /** The domains, or the addresses, of the lines for an entry. */
  function LogOf(lines: seq<Line>, view: string, zone: string, which: Kind): seq<string> {
    if lines == [] then []
    else
      var l := lines[|lines| - 1];
      LogOf(lines[..|lines| - 1], view, zone, which)
      + if Concerns(l, view, zone) then [if which == Names then l.domain else l.ip] else []
  }

  function KeptLog(v: Views, key: string, which: Kind): seq<string> {
    if key in v.stats then v.stats[key].Log(which) else []
  }

  /** No entry has lost a name or an address. */
  predicate Complete(v: Views) {
    forall s :: s in v.stats ==> v.stats[s].allNames && v.stats[s].allIps
  }

  lemma LogFreeLogs(v: Views, q: Query, key: string, which: Kind)
    requires Loggable(q) && Complete(v)
    ensures Complete(LogFree(v, q)) && (key in LogFree(v, q).stats <==> key in v.stats || key == q.view)
    ensures KeptLog(LogFree(v, q), key, which) ==
      KeptLog(v, key, which) + if key == q.view then [if which == Names then q.domain else q.ip] else []
  {
  }

  /** An entry stands under its key. */
  lemma LineConcerns(l: Line, view: string, zone: string)
    requires l.Valid() && '$' !in view
    ensures Concerns(l, view, zone) <==> Key(view, zone) == l.ForView().view || Key(view, zone) == l.ForZone().view
    ensures l.ForView().view != l.ForZone().view
  {
    LineKeys(l, if view == "*" then "" else view, zone);
    LineKeys(l, "", l.zone);
  }

  /** After any run each entry has been given exactly the domains and addresses of its lines, in their order. */
  lemma {:induction false} RunLogs(lines: seq<Line>, view: string, zone: string, which: Kind)
    requires AllValid(lines) && '$' !in view
    ensures Complete(Run(lines)) && KeptLog(Run(lines), Key(view, zone), which) == LogOf(lines, view, zone, which)
    ensures Key(view, zone) in Run(lines).stats <==> LogOf(lines, view, zone, which) != []
  {
    if lines != [] {
      var front, l := lines[..|lines| - 1], lines[|lines| - 1];
      var v := Run(front);
      RunLogs(front, view, zone, which);
      LineLogs(l);
      LineConcerns(l, view, zone);
      LogFreeLogs(v, l.ForView(), Key(view, zone), which);
      LogFreeLogs(LogFree(v, l.ForView()), l.ForZone(), Key(view, zone), which);
    }
  }

  // ---------- the same for the handler, as long as it need not trim ----------

  /** The queries the lines are turned into. */
  function Queries(lines: seq<Line>): seq<Query> {
    if lines == [] then []
    else
      var l := lines[|lines| - 1];
      Queries(lines[..|lines| - 1]) + [l.ForView(), l.ForZone()]
  }

  lemma {:induction false} QueriesAreLoggable(lines: seq<Line>)
    requires AllValid(lines)
    ensures AllLoggable(Queries(lines)) && |Queries(lines)| == 2 * |lines|
    ensures forall k :: 0 <= k < |Queries(lines)| ==> |Queries(lines)[k].view| < MAX_VIEW_LENGTH
  {
    if lines != [] {
      assert Ask(OfNames, 0);
      QueriesAreLoggable(lines[..|lines| - 1]);
    }
  }

  /** No step of the run needs a trim. */
  ghost predicate Roomy(v: Views, qs: seq<Query>, limit: nat)
    requires v.Fair() && AllLoggable(qs)
    decreases |qs|
  {
    if qs == [] then true
    else
      MeetIsFair(v, qs[0].view);
      FairIsListed(v.Meet(qs[0].view));
      LogMeans(v, qs[0], limit);
      v.Meet(qs[0].view).Size() <= limit && Roomy(v.Log(qs[0], limit), qs[1..], limit)
  }

  function FreeAll(v: Views, qs: seq<Query>): Views
    requires AllLoggable(qs)
  {
    if qs == [] then v else LogFree(FreeAll(v, qs[..|qs| - 1]), qs[|qs| - 1])
  }

  lemma FreeAllNext(v: Views, qs: seq<Query>, a: Query)
    requires AllLoggable(qs) && Loggable(a)
    ensures AllLoggable(qs + [a]) && FreeAll(v, qs + [a]) == LogFree(FreeAll(v, qs), a)
  {
    assert (qs + [a])[..|qs|] == qs;
  }

  lemma {:induction false} FreeAllFirst(v: Views, a: Query, qs: seq<Query>)
    requires AllLoggable(qs) && Loggable(a)
    ensures AllLoggable([a] + qs) && FreeAll(v, [a] + qs) == FreeAll(LogFree(v, a), qs)
  {
    if qs == [] {
      FreeAllNext(v, [], a);
      assert [a] + qs == [] + [a];
    } else {
      var front, b := qs[..|qs| - 1], qs[|qs| - 1];
      FreeAllFirst(v, a, front);
      FreeAllNext(v, [a] + front, b);
      FreeAllNext(LogFree(v, a), front, b);
      FrontLast(qs);
      ConsFront(a, qs);
    }
  }

  lemma {:induction false} RoomyRun(v: Views, qs: seq<Query>, limit: nat)
    requires v.Fair() && AllLoggable(qs) && Roomy(v, qs, limit)
    requires forall k :: 0 <= k < |qs| ==> |qs[k].view| <= MAX_VIEW_LENGTH
    ensures LogAll(v, qs, limit) == FreeAll(v, qs)
    decreases |qs|
  {
    if qs != [] {
      MeetIsFair(v, qs[0].view);
      FairIsListed(v.Meet(qs[0].view));
      LogMeans(v, qs[0], limit);
      LogFreeIsLog(v, qs[0], limit);
      RoomyRun(v.Log(qs[0], limit), qs[1..], limit);
      FreeAllFirst(v, qs[0], qs[1..]);
      HeadTail(qs);
    }
  }

  lemma {:induction false} RunIsFreeAll(lines: seq<Line>)
    requires AllValid(lines)
    ensures AllLoggable(Queries(lines)) && Run(lines) == FreeAll(Views(map[], []), Queries(lines))
  {
    QueriesAreLoggable(lines);
    if lines != [] {
      var front, l := lines[..|lines| - 1], lines[|lines| - 1];
      RunIsFreeAll(front);
      QueriesAreLoggable(front);
      LineLogs(l);
      FreeAllTwo(Views(map[], []), Queries(front), l.ForView(), l.ForZone());
    }
  }

  lemma FreeAllTwo(v: Views, qs: seq<Query>, a: Query, b: Query)
    requires AllLoggable(qs) && Loggable(a) && Loggable(b)
    ensures AllLoggable(qs + [a, b]) && FreeAll(v, qs + [a, b]) == LogFree(LogFree(FreeAll(v, qs), a), b)
  {
    FreeAllNext(v, qs, a);
    FreeAllNext(v, qs + [a], b);
    assert qs + [a] + [b] == qs + [a, b];
  }

  lemma EmptyIsFair()
    ensures Views(map[], []).Fair()
  {
  }

  /** A run of the handler that never trims is the run without a limit. */
  lemma HandlerRun(lines: seq<Line>, limit: nat)
    requires AllValid(lines)
    ensures AllLoggable(Queries(lines)) && Views(map[], []).Fair()
    ensures Roomy(Views(map[], []), Queries(lines), limit) ==>
      LogAll(Views(map[], []), Queries(lines), limit) == Run(lines)
  {
    QueriesAreLoggable(lines);
    EmptyIsFair();
    if Roomy(Views(map[], []), Queries(lines), limit) {
      RoomyRun(Views(map[], []), Queries(lines), limit);
      RunIsFreeAll(lines);
    }
  }

  /** Conservation in the state the handler reaches between two flushes without a trim. */
  ghost predicate Conserved(v: Views, lines: seq<Line>) {
    && (forall zone, m :: CountIn(v, Key("*", zone), m) == SumCounts(v, Seen(lines), zone, m))
    && forall key :: CountIn(v, key, AllRcodes) == CountIn(v, key, AllRtypes) == Handled(lines, key)
  }

  lemma HandlerConserves(lines: seq<Line>, limit: nat)
    requires AllValid(lines)
    ensures AllLoggable(Queries(lines)) && Views(map[], []).Fair()
    ensures Roomy(Views(map[], []), Queries(lines), limit) ==>
      Conserved(LogAll(Views(map[], []), Queries(lines), limit), lines)
  {
    HandlerRun(lines, limit);
    forall zone, m ensures CountIn(Run(lines), Key("*", zone), m) == SumCounts(Run(lines), Seen(lines), zone, m) {
      ZoneHoldsSum(lines, zone, m);
    }
    forall key
      ensures CountIn(Run(lines), key, AllRcodes) == CountIn(Run(lines), key, AllRtypes) == Handled(lines, key)
    {
      CodesAddUp(lines, key);
    }
  }

  // ---------- the two keys, the bound and the room ----------

  /** The entries of a line stand under "view$zone" and "*$zone". */
  lemma LineStandsUnder(l: Line)
    ensures l.ForView() == Query(l.view + "$" + l.zone, l.domain, l.ip, l.rtype, l.rcode)
    ensures l.ForZone() == Query("*$" + l.zone, l.domain, l.ip, l.rtype, l.rcode)
  {
    assert "*" + "$" == "*$";
  }

  lemma {:induction false} LogAllNext(v: Views, qs: seq<Query>, q: Query, limit: nat)
    requires v.Fair() && AllLoggable(qs) && Loggable(q)
    ensures AllLoggable(qs + [q]) && LogAll(v, qs, limit).Fair()
    ensures LogAll(v, qs + [q], limit) == LogAll(v, qs, limit).Log(q, limit)
    decreases |qs|
  {
    LogAllMeans(v, qs, limit);
    if qs == [] {
      assert [] + [q] == [q];
    } else {
      LogMeans(v, qs[0], limit);
      LogAllNext(v.Log(qs[0], limit), qs[1..], q, limit);
      assert (qs + [q])[1..] == qs[1..] + [q];
    }
  }

  lemma QueriesNext(lines: seq<Line>)
    requires lines != []
    ensures var (front, l) := (lines[..|lines| - 1], lines[|lines| - 1]);
      Queries(lines) == Queries(front) + [l.ForView()] + [l.ForZone()]
  {
  }

  /** After a line the entry of its zone is at the head of the list, and that of its view, unless a
      trim has taken it, is next. */
  lemma LineAtHead(lines: seq<Line>, limit: nat)
    requires AllValid(lines) && lines != []
    ensures AllLoggable(Queries(lines)) && Views(map[], []).Fair()
    ensures var (t, l) := (LogAll(Views(map[], []), Queries(lines), limit), lines[|lines| - 1]);
      && t.order != [] && t.order[0] == "*$" + l.zone
      && (|t.order| > 1 ==> t.order[1] == l.view + "$" + l.zone)
  {
    EmptyIsFair();
    QueriesAreLoggable(lines);
    QueriesNext(lines);
    var front, l, none := lines[..|lines| - 1], lines[|lines| - 1], Views(map[], []);
    QueriesAreLoggable(front);
    LineLogs(l);
    LineStandsUnder(l);
    LineFits(l);
    LogAllNext(none, Queries(front), l.ForView(), limit);
    LogAllNext(none, Queries(front) + [l.ForView()], l.ForZone(), limit);
    var u := LogAll(none, Queries(front), limit);
    LogMeans(u, l.ForView(), limit);
    var w := u.Log(l.ForView(), limit);
    LogMeans(w, l.ForZone(), limit);
    KeysDiffer(w.order, l);
  }

  lemma LineFits(l: Line)
    requires l.Valid()
    ensures |l.ForView().view| <= 64 && |l.ForZone().view| <= 64 && l.ForView().view != l.ForZone().view
  {
    assert Ask(OfNames, 0);
    LineKeys(l, l.view, l.zone);
  }

  lemma KeysDiffer(order: seq<string>, l: Line)
    requires order != [] && order[0] == l.ForView().view != l.ForZone().view
    ensures var r := Removed(order, l.ForZone().view); r != [] && r[0] == l.ForView().view
  {
  }

  /** With enough room for a new view at every query no step of the run needs a trim. */
  lemma {:induction false} RoomyIfFew(v: Views, qs: seq<Query>, limit: nat)
    requires v.Fair() && AllLoggable(qs) && Tidy(v) && v.Listed() && v.Size() + 321080 * |qs| <= limit
    requires forall k :: 0 <= k < |qs| ==> |qs[k].view| <= MAX_VIEW_LENGTH
    ensures Roomy(v, qs, limit)
    decreases |qs|
  {
    if qs != [] {
      LogMeans(v, qs[0], limit);
      MeetSize(v, qs[0].view);
      LogIsBounded(v, qs[0], limit);
      RoomyIfFew(v.Log(qs[0], limit), qs[1..], limit);
    }
  }

  lemma FewLinesAreRoomy(lines: seq<Line>, limit: nat)
    requires AllValid(lines) && 24 + 642160 * |lines| <= limit
    ensures AllLoggable(Queries(lines)) && Views(map[], []).Fair() && Roomy(Views(map[], []), Queries(lines), limit)
  {
    EmptyIsFair();
    QueriesAreLoggable(lines);
    SizeMeans(Views(map[], []));
    RoomyIfFew(Views(map[], []), Queries(lines), limit);
  }

  /** In any run the memory estimate stays within its bound, and the last line is at the head. */
  ghost predicate Bounded(v: Views, lines: seq<Line>, limit: nat) {
    && v.Listed() && (v.Size() <= limit + 400 || v.Size() <= 320704 + 400)
    && (lines != [] ==>
         var l := lines[|lines| - 1];
         && v.order != [] && v.order[0] == "*$" + l.zone
         && (|v.order| > 1 ==> v.order[1] == l.view + "$" + l.zone))
  }

  lemma HandlerKeeps(lines: seq<Line>, limit: nat)
    requires AllValid(lines)
    ensures AllLoggable(Queries(lines)) && Views(map[], []).Fair()
    ensures Bounded(LogAll(Views(map[], []), Queries(lines), limit), lines, limit)
  {
    EmptyIsFair();
    QueriesAreLoggable(lines);
    SizeMeans(Views(map[], []));
    LogAllIsBounded(Views(map[], []), Queries(lines), limit);
    if lines != [] {
      LineAtHead(lines, limit);
    }
  }
}
