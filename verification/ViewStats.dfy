/** The counters of one view, src/log_view_stats.c: two trees of counted names and two tables. */
module ViewStats {
  import opened NameRuns
  import opened NameTree
  import opened RedBlackAlgebra
  import opened RedBlackTree
  import opened Sealing
  import opened Sequences

  const RCODES := ["NOERROR", "FORMATERR", "SERVFAIL", "NXDOMAIN", "NOTIMP", "REFUSED", "OTHER"]

  const RTYPES := ["A", "MX", "AAAA", "CNAME", "NS", "SOA", "TXT", "SPF", "SRV", "DNAME", "NAPTR", "OTHER"]

  /** The first place of `code` in the table, the last place if it is not there. */
  function TableIndex(table: seq<string>, code: string): (i: nat)
    requires table != []
    ensures i < |table|
    decreases table, code
  {
    if |table| == 1 || table[0] == code then 0 else 1 + TableIndex(table[1..], code)
  }

  lemma {:induction false} TableIndexMeans(table: seq<string>, code: string)
    requires table != []
    ensures code in table ==> table[TableIndex(table, code)] == code
    ensures code !in table ==> TableIndex(table, code) == |table| - 1
  {
    if |table| > 1 && table[0] != code {
      TableIndexMeans(table[1..], code);
    }
  }

  lemma {:induction false} TableIndexFirst(table: seq<string>, code: string, i: nat)
    requires i < |table| && table[i] == code && forall j :: 0 <= j < i ==> table[j] != code
    ensures TableIndex(table, code) == i
  {
    if i > 0 {
      assert table[1..][i - 1] == code;
      TableIndexFirst(table[1..], code, i - 1);
    }
  }

  lemma {:induction false} TableIndexNone(table: seq<string>, code: string)
    requires table != [] && forall j :: 0 <= j < |table| ==> table[j] != code
    ensures TableIndex(table, code) == |table| - 1
  {
    if |table| > 1 {
      TableIndexNone(table[1..], code);
    }
  }

  /** The codes and types that are counted apart, each in its place. */
  lemma CodesApart(code: string)
    ensures TableIndex(RCODES, code) ==
      if code == "NOERROR" then 0 else if code == "FORMATERR" then 1 else if code == "SERVFAIL" then 2
      else if code == "NXDOMAIN" then 3 else if code == "NOTIMP" then 4 else if code == "REFUSED" then 5 else 6
  {
    TableIndexMeans(RCODES, code);
    assert code in RCODES <==> exists i :: 0 <= i < 7 && RCODES[i] == code;
  }

  lemma TypesApart(code: string)
    ensures TableIndex(RTYPES, code) ==
      if code == "A" then 0 else if code == "MX" then 1 else if code == "AAAA" then 2
      else if code == "CNAME" then 3 else if code == "NS" then 4 else if code == "SOA" then 5
      else if code == "TXT" then 6 else if code == "SPF" then 7 else if code == "SRV" then 8
      else if code == "DNAME" then 9 else if code == "NAPTR" then 10 else 11
  {
    TableIndexMeans(RTYPES, code);
    assert code in RTYPES <==> exists i :: 0 <= i < 12 && RTYPES[i] == code;
  }

  method FindCode(table: seq<string>, code: string) returns (i: nat)
    requires table != []
    ensures i == TableIndex(table, code)
  {
    i := 0;
    while i < |table|
      invariant i <= |table| && forall j :: 0 <= j < i ==> table[j] != code
    {
      if code == table[i] {
        TableIndexFirst(table, code, i);
        return;
      }
      i := i + 1;
    }
    TableIndexNone(table, code);
    i := |table| - 1;
  }

  // ---------- sizes, as sizeof gives them on a 64-bit machine ----------

  const NAME_TREE_SIZE: nat := 104 + (80016 + 10000 * 8) + 72 * 2
  const NODE_SIZE: nat := 40 + 48
  const CELL_SIZE: nat := 24
  const MAX_VIEW_LENGTH: nat := 64
  const VIEW_STATS_SIZE: nat := 176
  const UINT32: nat := 0x1_0000_0000

  function NameTreeSize(count: nat, cells: nat): nat {
    NAME_TREE_SIZE + count * NODE_SIZE + cells * CELL_SIZE
  }

  /** The sum is taken in 32 bits. */
  function StatsSize(names: nat, ips: nat): nat {
    (VIEW_STATS_SIZE + NameTreeSize(names, names) % UINT32 + NameTreeSize(ips, ips) % UINT32) % UINT32
  }

  method NewTrees(nil: Node) returns (names: NameTree, ips: NameTree)
    requires nil.color == Black && nil.parent == nil.left == nil.right == nil
    ensures names.Whole() && fresh(names.Footprint()) && names.tree.nil == nil && !names.repaired
    ensures ips.Whole() && fresh(ips.Footprint()) && ips.tree.nil == nil && !ips.repaired
    ensures names.Footprint() !! ips.Footprint()
    ensures names.intact && ips.intact
    ensures names.order == [] && names.Now() == NOTHING
    ensures ips.order == [] && ips.Now() == NOTHING
  {
    names := new NameTree(nil, false);
    ips := new NameTree(nil, false);
  }

  datatype Kind = Names | Ips

  /** What the counters of a view say; besides, all that they have been given to count, and whether
      they still have all names and all addresses of it. */
  datatype Stats = Stats(names: map<string, nat>, nameOrder: seq<string>, ips: map<string, nat>, ipOrder: seq<string>,
                         rcode: seq<nat>, rtype: seq<nat>, nameLog: seq<string>, allNames: bool, ipLog: seq<string>,
                         allIps: bool)
  {
    function Log(which: Kind): seq<string> {
      if which == Names then nameLog else ipLog
    }

    predicate HasAll(which: Kind) {
      if which == Names then allNames else allIps
    }

    function CountName(name: string): Stats
      requires Fits(name)
    {
      var s := this.(nameLog := nameLog + [name]);
      if |name| >= MAX_NAME_LEN then s
      else s.(names := OneMore(names, Normal(name)), nameOrder := [Normal(name)] + Removed(nameOrder, Normal(name)))
    }

    function CountIp(ip: string): Stats
      requires Fits(ip)
    {
      var s := this.(ipLog := ipLog + [ip]);
      if |ip| >= MAX_NAME_LEN then s
      else s.(ips := OneMore(ips, Normal(ip)), ipOrder := [Normal(ip)] + Removed(ipOrder, Normal(ip)))
    }

    function CountRcode(i: int): Stats {
      if 0 <= i < |rcode| then this.(rcode := rcode[i := rcode[i] + 1]) else this
    }

    function CountRtype(i: int): Stats {
      if 0 <= i < |rtype| then this.(rtype := rtype[i := rtype[i] + 1]) else this
    }

    function Size(): nat {
      StatsSize(|nameOrder|, |ipOrder|)
    }

    /** Without the name, and the address, inserted least recently. */
    function DropName(): Stats
      requires nameOrder != []
    {
      var n := |nameOrder| - 1;
      this.(names := names - {nameOrder[n]}, nameOrder := nameOrder[..n], allNames := false)
    }

    function DropIp(): Stats
      requires ipOrder != []
    {
      var n := |ipOrder| - 1;
      this.(ips := ips - {ipOrder[n]}, ipOrder := ipOrder[..n], allIps := false)
    }

    function TrimNames(limit: nat): Stats
      decreases |nameOrder|
    {
      if Size() <= limit || nameOrder == [] then this else DropName().TrimNames(limit)
    }

    function TrimIps(limit: nat): Stats
      decreases |ipOrder|
    {
      if Size() <= limit || ipOrder == [] then this else DropIp().TrimIps(limit)
    }

    /** Names go first, then addresses, until the size fits or nothing is left. */
    function Trim(limit: nat): Stats {
      TrimNames(limit).TrimIps(limit)
    }
  }

  /** Trimming the names of `s` ends in `goal`. */
  ghost predicate NamesToGo(s: Stats, limit: nat, goal: Stats) {
    forall u :: Ask(OfTrim, u) ==> s.TrimNames(limit) == goal
  }

  lemma NamesGone(s: Stats, limit: nat, goal: Stats)
    requires NamesToGo(s, limit, goal) && (s.Size() <= limit || s.nameOrder == [])
    ensures goal == s
  {
    assert Ask(OfTrim, 0);
  }

  lemma NameGoes(s: Stats, limit: nat, goal: Stats)
    requires NamesToGo(s, limit, goal) && s.Size() > limit && s.nameOrder != []
    ensures NamesToGo(s.DropName(), limit, goal)
  {
    assert Ask(OfTrim, 0);
  }

  ghost predicate IpsToGo(s: Stats, limit: nat, goal: Stats) {
    forall u :: Ask(OfTrim, u) ==> s.TrimIps(limit) == goal
  }

  lemma IpsGone(s: Stats, limit: nat, goal: Stats)
    requires IpsToGo(s, limit, goal) && (s.Size() <= limit || s.ipOrder == [])
    ensures goal == s
  {
    assert Ask(OfTrim, 0);
  }

  lemma IpGoes(s: Stats, limit: nat, goal: Stats)
    requires IpsToGo(s, limit, goal) && s.Size() > limit && s.ipOrder != []
    ensures IpsToGo(s.DropIp(), limit, goal)
  {
    assert Ask(OfTrim, 0);
  }

  /** What is left of the counts when of `order` only the first `k` names are left. */
  function Left(counts: map<string, nat>, order: seq<string>, k: nat): (r: map<string, nat>)
    requires k <= |order|
  {
    counts - set n | n in order[k..]
  }

  lemma LeftLess(counts: map<string, nat>, order: seq<string>, k: nat)
    requires k < |order|
    ensures var n := |order| - 1;
      Left(counts - {order[n]}, order[..n], k) == Left(counts, order, k)
  {
    var n := |order| - 1;
    assert order[k..] == order[..n][k..] + [order[n]];
  }

  lemma LeftAll(counts: map<string, nat>, order: seq<string>)
    ensures Left(counts, order, |order|) == counts
  {
  }

  /** From `s` to `t` nothing but the last names has gone. */
  predicate FewerNames(s: Stats, t: Stats) {
    && t.nameOrder <= s.nameOrder && t.names == Left(s.names, s.nameOrder, |t.nameOrder|)
    && t == s.(names := t.names, nameOrder := t.nameOrder, allNames := s.allNames && t.nameOrder == s.nameOrder)
  }

  predicate FewerIps(s: Stats, t: Stats) {
    && t.ipOrder <= s.ipOrder && t.ips == Left(s.ips, s.ipOrder, |t.ipOrder|)
    && t == s.(ips := t.ips, ipOrder := t.ipOrder, allIps := s.allIps && t.ipOrder == s.ipOrder)
  }

  lemma {:induction false} TrimNamesMeans(s: Stats, limit: nat)
    ensures var t := s.TrimNames(limit);
      && FewerNames(s, t)
      && (t.Size() <= limit || t.nameOrder == [])
      && forall k :: |t.nameOrder| < k <= |s.nameOrder| ==> StatsSize(k, |s.ipOrder|) > limit
    decreases |s.nameOrder|
  {
    if s.Size() > limit && s.nameOrder != [] {
      TrimNamesMeans(s.DropName(), limit);
      LeftLess(s.names, s.nameOrder, |s.TrimNames(limit).nameOrder|);
    } else {
      LeftAll(s.names, s.nameOrder);
    }
  }

  lemma {:induction false} TrimIpsMeans(s: Stats, limit: nat)
    ensures var t := s.TrimIps(limit);
      && FewerIps(s, t)
      && (t.Size() <= limit || t.ipOrder == [])
      && forall k :: |t.ipOrder| < k <= |s.ipOrder| ==> StatsSize(|s.nameOrder|, k) > limit
    decreases |s.ipOrder|
  {
    if s.Size() > limit && s.ipOrder != [] {
      TrimIpsMeans(s.DropIp(), limit);
      LeftLess(s.ips, s.ipOrder, |s.TrimIps(limit).ipOrder|);
    } else {
      LeftAll(s.ips, s.ipOrder);
    }
  }

  /** From `s` to `t` the most recent names and addresses are left, with their counts; none has gone
      without need, and no address before the names; the size fits or both lists are empty. */
  ghost predicate Trimmed(s: Stats, limit: nat, t: Stats) {
    && t.nameOrder <= s.nameOrder && t.names == Left(s.names, s.nameOrder, |t.nameOrder|)
    && t.ipOrder <= s.ipOrder && t.ips == Left(s.ips, s.ipOrder, |t.ipOrder|)
    && t.rcode == s.rcode && t.rtype == s.rtype && t.nameLog == s.nameLog && t.ipLog == s.ipLog
    && t.allNames == (s.allNames && t.nameOrder == s.nameOrder) && t.allIps == (s.allIps && t.ipOrder == s.ipOrder)
    && (t.Size() <= limit || (t.nameOrder == [] && t.ipOrder == []))
    && (forall k :: |t.nameOrder| < k <= |s.nameOrder| ==> StatsSize(k, |s.ipOrder|) > limit)
    && (forall k :: |t.ipOrder| < k <= |s.ipOrder| ==> t.nameOrder == [] && StatsSize(0, k) > limit)
  }

  /** That is what a trim does, and nothing else is. */
  lemma TrimMeans(s: Stats, limit: nat)
    ensures forall t :: Trimmed(s, limit, t) <==> t == s.Trim(limit)
  {
    TrimNamesMeans(s, limit);
    TrimIpsMeans(s.TrimNames(limit), limit);
    var u := s.Trim(limit);
    assert Trimmed(s, limit, u);
    forall t | Trimmed(s, limit, t) ensures t == u {
      TrimmedIsUnique(s, limit, t, u);
    }
  }

  lemma TrimmedIsUnique(s: Stats, limit: nat, t: Stats, u: Stats)
    requires Trimmed(s, limit, t) && Trimmed(s, limit, u)
    ensures t == u
  {
    SameNames(s, limit, t, u);
    SameNames(s, limit, u, t);
    SameIps(s, limit, t, u);
    SameIps(s, limit, u, t);
    assert t.nameOrder == s.nameOrder[..|t.nameOrder|] == u.nameOrder;
    assert t.ipOrder == s.ipOrder[..|t.ipOrder|] == u.ipOrder;
  }

  lemma SameNames(s: Stats, limit: nat, t: Stats, u: Stats)
    requires Trimmed(s, limit, t) && Trimmed(s, limit, u)
    ensures |t.nameOrder| >= |u.nameOrder|
  {
    var n := StatsSize(|u.nameOrder|, |s.ipOrder|);
    var none := StatsSize(0, |s.ipOrder|);
  }

  lemma SameIps(s: Stats, limit: nat, t: Stats, u: Stats)
    requires Trimmed(s, limit, t) && Trimmed(s, limit, u) && |t.nameOrder| == |u.nameOrder|
    ensures |t.ipOrder| >= |u.ipOrder|
  {
    var none := StatsSize(0, |u.ipOrder|);
  }

  /** What the size of a view counts, in bytes and modulo 2^32: itself with two empty trees, and for
      each name and each address its node, its record and its cell. */
  lemma StatsSizeMeans(names: nat, ips: nat)
    ensures StatsSize(names, ips) == (320704 + 112 * (names + ips)) % 0x1_0000_0000
  {
    var a, b := NameTreeSize(names, names), NameTreeSize(ips, ips);
    assert a == 160264 + 112 * names && b == 160264 + 112 * ips;
    SumOfRests(a, b, VIEW_STATS_SIZE);
    assert a + b + VIEW_STATS_SIZE == 320704 + 112 * (names + ips);
  }

  lemma SumOfRests(a: nat, b: nat, c: nat)
    ensures (c + a % UINT32 + b % UINT32) % UINT32 == (a + b + c) % UINT32
  {
    var p, q := a / UINT32, b / UINT32;
    var r := c + a % UINT32 + b % UINT32;
    assert a + b + c == r + (p + q) * UINT32;
  }

  /** Below 2^32 one more name, or one more address, adds 112 bytes. */
  lemma OneMoreAdds112(names: nat, ips: nat)
    requires 320704 + 112 * (names + ips + 1) < 0x1_0000_0000
    ensures StatsSize(names + 1, ips) == StatsSize(names, ips + 1) == StatsSize(names, ips) + 112
  {
    StatsSizeMeans(names, ips);
    StatsSizeMeans(names + 1, ips);
    StatsSizeMeans(names, ips + 1);
    var size := 320704 + 112 * (names + ips);
    SmallRest(size);
    SmallRest(size + 112);
  }

  lemma SmallRest(a: nat)
    requires a < 0x1_0000_0000
    ensures a % 0x1_0000_0000 == a
  {
  }

  function NewStats(): Stats {
    Stats(map[], [], map[], [], seq(|RCODES|, i => 0), seq(|RTYPES|, i => 0), [], true, [], true)
  }

  /** As long as no name has left the tree, its state is that after a run of insertions. */
  ghost predicate AsRan(t: NameTree, log: seq<string>, trace: seq<Snapshot>)
    requires t.Whole()
    reads t, t.tree`mem, t.lru`cells, t.Footprint(), t.tree.nil
  {
    !t.repaired && (t.intact ==> Ran(log, trace, t.Now()))
  }

  class ViewStats {
    const name: string
    const nameTree: NameTree
    const ipTree: NameTree
    var rcode: seq<nat>
    var rtype: seq<nat>
    /** All that was counted since the beginning. */
    ghost var nameLog: seq<string>
    ghost var ipLog: seq<string>
    /** The states of the trees up to now. */
    ghost var nameTrace: seq<Snapshot>
    ghost var ipTrace: seq<Snapshot>

    ghost function Footprint(): set<object>
      reads nameTree, nameTree.tree`mem, nameTree.lru`cells, ipTree, ipTree.tree`mem, ipTree.lru`cells
    {
      {this} + nameTree.Footprint() + ipTree.Footprint()
    }

    ghost predicate Parts()
      reads this, Footprint(), nameTree, nameTree.tree`mem, nameTree.lru`cells, ipTree, ipTree.tree`mem
      reads ipTree.lru`cells
      reads nameTree.tree.nil, ipTree.tree.nil
    {
      && nameTree.Whole() && ipTree.Whole() && nameTree.tree.nil == ipTree.tree.nil
      && nameTree.Footprint() !! ipTree.Footprint()
      && this !in nameTree.Footprint() + ipTree.Footprint()
      && |rcode| == |RCODES| && |rtype| == |RTYPES|
      && AsRan(nameTree, nameLog, nameTrace) && AsRan(ipTree, ipLog, ipTrace)
    }

    ghost predicate Whole()
      reads this, Footprint(), nameTree, nameTree.tree`mem, nameTree.lru`cells, ipTree, ipTree.tree`mem
      reads ipTree.lru`cells
      reads nameTree.tree.nil, ipTree.tree.nil
    {
      && nameTree.tree.nil == ipTree.tree.nil && nameTree.tree.nil !in Footprint()
      && {nameTree, nameTree.tree, nameTree.lru, ipTree, ipTree.tree, ipTree.lru} <= Footprint()
      && |rcode| == |RCODES| && |rtype| == |RTYPES|
      && forall u :: Ask(OfStats, u) ==> Parts()
    }

    ghost function Now(): Stats
      requires Whole()
      reads this, Footprint(), nameTree, nameTree.tree`mem, nameTree.lru`cells, ipTree, ipTree.tree`mem
      reads ipTree.lru`cells
      reads nameTree.tree.nil, ipTree.tree.nil
    {
      assert Ask(OfStats, 0);
      Stats(nameTree.Now().counts, nameTree.order, ipTree.Now().counts, ipTree.order, rcode, rtype,
            nameLog, nameTree.intact, ipLog, ipTree.intact)
    }

    constructor (name: string, nil: Node)
      requires |name| < MAX_VIEW_LENGTH
      requires nil.color == Black && nil.parent == nil.left == nil.right == nil
      ensures Whole() && fresh(Footprint()) && this.name == name
      ensures nameTree.tree.nil == nil && Now() == NewStats()
    {
      this.name := name;
      var names, ips := NewTrees(nil);
      nameTree, ipTree := names, ips;
      rcode, rtype := NewStats().rcode, NewStats().rtype;
      nameLog, ipLog := [], [];
      nameTrace, ipTrace := [NOTHING], [NOTHING];
      new;
      NothingRan();
      assert Parts();
    }

    twostate lemma TreesFrame()
      requires old(nameTree.Whole() && ipTree.Whole()) && unchanged(nameTree.tree.nil) && unchanged(ipTree.tree.nil)
      requires unchanged(old(nameTree.Footprint())) && unchanged(old(ipTree.Footprint()))
      ensures nameTree.Whole() && nameTree.Footprint() == old(nameTree.Footprint())
      ensures ipTree.Whole() && ipTree.Footprint() == old(ipTree.Footprint())
      ensures nameTree.Now() == old(nameTree.Now()) && nameTree.order == old(nameTree.order)
      ensures ipTree.Now() == old(ipTree.Now()) && ipTree.order == old(ipTree.order)
      ensures nameTree.intact == old(nameTree.intact) && ipTree.intact == old(ipTree.intact)
    {
    }

    /** The name is counted; whatever else the view has stays. */
    method InsertName(s: string)
      requires Whole() && Fits(s)
      modifies Footprint()
      ensures Whole() && fresh(Footprint() - old(Footprint()))
      ensures Now() == old(Now()).CountName(s)
    {
      assert Ask(OfStats, 0);
      ghost var trace := CountIn(nameTree, ipTree, s, nameLog, nameTrace, ipLog, ipTrace);
      label counted:
      nameLog, nameTrace := nameLog + [s], trace;
      TreesFrame@counted();
    }

    /** The address is counted. */
    method InsertIp(s: string)
      requires Whole() && Fits(s)
      modifies Footprint()
      ensures Whole() && fresh(Footprint() - old(Footprint()))
      ensures Now() == old(Now()).CountIp(s)
    {
      assert Ask(OfStats, 0);
      ghost var trace := CountIn(ipTree, nameTree, s, ipLog, ipTrace, nameLog, nameTrace);
      label counted:
      ipLog, ipTrace := ipLog + [s], trace;
      TreesFrame@counted();
    }

    /** The guard lets the length of the table itself pass; the index must not be that. */
    method IncrementRcode(i: int)
      requires Whole() && i != |RCODES|
      modifies this
      ensures Whole() && Footprint() == old(Footprint())
      ensures Now() == old(Now()).CountRcode(i)
      ensures rcode == if 0 <= i < |RCODES| then old(rcode)[i := old(rcode)[i] + 1] else old(rcode)
    {
      assert Ask(OfStats, 0);
      if i > |RCODES| || i < 0 {
        return;
      }
      rcode := rcode[i := rcode[i] + 1];
    }

    method IncrementRtype(i: int)
      requires Whole() && i != |RTYPES|
      modifies this
      ensures Whole() && Footprint() == old(Footprint())
      ensures Now() == old(Now()).CountRtype(i)
      ensures rtype == if 0 <= i < |RTYPES| then old(rtype)[i := old(rtype)[i] + 1] else old(rtype)
    {
      assert Ask(OfStats, 0);
      if i > |RTYPES| || i < 0 {
        return;
      }
      rtype := rtype[i := rtype[i] + 1];
    }

    twostate lemma WholeFrame()
      requires old(Whole()) && unchanged(old(Footprint())) && unchanged(nameTree.tree.nil)
      ensures Whole() && Footprint() == old(Footprint()) && Now() == old(Now())
    {
      assert this in old(Footprint());
    }

    /** The record type is counted. */
    method CountType(type_: string)
      requires Whole()
      modifies this
      ensures Whole() && Footprint() == old(Footprint())
      ensures Now() == old(Now()).CountRtype(TableIndex(RTYPES, type_))
    {
      label start:
      var i := FindCode(RTYPES, type_);
      WholeFrame@start();
      IncrementRtype(i);
    }

    /** The response code is counted. */
    method CountCode(code: string)
      requires Whole()
      modifies this
      ensures Whole() && Footprint() == old(Footprint())
      ensures Now() == old(Now()).CountRcode(TableIndex(RCODES, code))
    {
      label start:
      var i := FindCode(RCODES, code);
      WholeFrame@start();
      IncrementRcode(i);
    }

    method CountCodes(type_: string, code: string)
      requires Whole()
      modifies this
      ensures Whole() && Footprint() == old(Footprint())
      ensures Now() == old(Now()).CountRtype(TableIndex(RTYPES, type_)).CountRcode(TableIndex(RCODES, code))
    {
      CountType(type_);
      CountCode(code);
    }

    method CountNames(domain: string, ip: string)
      requires Whole() && Fits(domain) && Fits(ip)
      modifies Footprint()
      ensures Whole() && fresh(Footprint() - old(Footprint()))
      ensures Now() == old(Now()).CountName(domain).CountIp(ip)
    {
      InsertName(domain);
      InsertIp(ip);
    }

    /** One query of the view. */
    method CountQuery(domain: string, ip: string, type_: string, code: string)
      requires Whole() && Fits(domain) && Fits(ip)
      modifies Footprint()
      ensures Whole() && fresh(Footprint() - old(Footprint()))
      ensures Now() ==
        old(Now()).CountName(domain).CountIp(ip).CountRtype(TableIndex(RTYPES, type_))
          .CountRcode(TableIndex(RCODES, code))
    {
      CountNames(domain, ip);
      CountCodes(type_, code);
    }

    function GetSize(): (size: nat)
      requires Whole()
      reads this, Footprint(), nameTree, nameTree.tree`mem, nameTree.lru`cells, ipTree, ipTree.tree`mem
      reads ipTree.lru`cells
      reads nameTree.tree.nil, ipTree.tree.nil
      ensures size == Now().Size()
      ensures size == (320704 + 112 * (|Now().nameOrder| + |Now().ipOrder|)) % 0x1_0000_0000
    {
      assert Ask(OfStats, 0);
      StatsSizeMeans(|nameTree.order|, |ipTree.order|);
      nameTree.ListLength();
      ipTree.ListLength();
      var names := NameTreeSize(nameTree.count, nameTree.lru.count) % UINT32;
      var ips := NameTreeSize(ipTree.count, ipTree.lru.count) % UINT32;
      (VIEW_STATS_SIZE + names + ips) % UINT32
    }

    /** The name inserted least recently goes, if there is one. */
    method DropOldestName() returns (dropped: bool)
      requires Whole()
      modifies Footprint()
      ensures Whole() && Footprint() <= old(Footprint())
      ensures dropped == (old(Now()).nameOrder != [])
      ensures Now() == if dropped then old(Now()).DropName() else old(Now())
    {
      assert Ask(OfStats, 0);
      dropped := DropFrom(nameTree, ipTree);
    }

    method DropOldestIp() returns (dropped: bool)
      requires Whole()
      modifies Footprint()
      ensures Whole() && Footprint() <= old(Footprint())
      ensures dropped == (old(Now()).ipOrder != [])
      ensures Now() == if dropped then old(Now()).DropIp() else old(Now())
    {
      assert Ask(OfStats, 0);
      dropped := DropFrom(ipTree, nameTree);
    }

    /** The reply with the names, or the addresses, that were counted most. */
    method TopN(which: Kind, topn: nat)
      returns (shown: seq<string>, counts: seq<nat>, ghost trace: seq<Snapshot>)
      requires Whole() && Now().HasAll(which)
      ensures Whole() && Now() == old(Now()) && Footprint() == old(Footprint())
      ensures Replied(Now().Log(which), trace, topn, shown, counts)
    {
      if which == Names {
        shown, counts := NameTopN(topn);
        trace := nameTrace;
      } else {
        shown, counts := IpTopN(topn);
        trace := ipTrace;
      }
    }

    method NameTopN(topn: nat) returns (shown: seq<string>, counts: seq<nat>)
      requires Whole() && Now().allNames
      ensures Whole() && Now() == old(Now()) && Footprint() == old(Footprint())
      ensures Replied(nameLog, nameTrace, topn, shown, counts)
    {
      assert Ask(OfStats, 0);
      shown, counts := ReplyFrom(nameTree, ipTree, nameLog, nameTrace, topn);
    }

    method IpTopN(topn: nat) returns (shown: seq<string>, counts: seq<nat>)
      requires Whole() && Now().allIps
      ensures Whole() && Now() == old(Now()) && Footprint() == old(Footprint())
      ensures Replied(ipLog, ipTrace, topn, shown, counts)
    {
      assert Ask(OfStats, 0);
      shown, counts := ReplyFrom(ipTree, nameTree, ipLog, ipTrace, topn);
    }

    /** Names go first, then addresses, until the size fits. */
    method SetMemsize(limit: nat)
      requires Whole()
      modifies Footprint()
      ensures Whole() && Footprint() <= old(Footprint())
      ensures Now() == old(Now()).Trim(limit)
    {
      TrimNames(limit, Now().TrimNames(limit));
      TrimIps(limit, Now().TrimIps(limit));
    }

    method TrimNames(limit: nat, ghost goal: Stats)
      requires Whole() && NamesToGo(Now(), limit, goal)
      modifies Footprint()
      ensures Whole() && Footprint() <= old(Footprint()) && Now() == goal
    {
      var current := GetSize();
      while limit < current
        invariant Whole() && Footprint() <= old(Footprint())
        invariant current == Now().Size() && NamesToGo(Now(), limit, goal)
        decreases |Now().nameOrder|
      {
        ghost var s := Now();
        var dropped := DropOldestName();
        if !dropped {
          break;
        }
        NameGoes(s, limit, goal);
        current := GetSize();
      }
      NamesGone(Now(), limit, goal);
    }

    method TrimIps(limit: nat, ghost goal: Stats)
      requires Whole() && IpsToGo(Now(), limit, goal)
      modifies Footprint()
      ensures Whole() && Footprint() <= old(Footprint()) && Now() == goal
    {
      var current := GetSize();
      while limit < current
        invariant Whole() && Footprint() <= old(Footprint())
        invariant current == Now().Size() && IpsToGo(Now(), limit, goal)
        decreases |Now().ipOrder|
      {
        ghost var s := Now();
        var dropped := DropOldestIp();
        if !dropped {
          break;
        }
        IpGoes(s, limit, goal);
        current := GetSize();
      }
      IpsGone(Now(), limit, goal);
    }
  }

  twostate lemma TreeFrame(new t: NameTree)
    requires old(allocated(t)) && old(t.Whole()) && unchanged(old(t.Footprint())) && unchanged(t.tree.nil)
    ensures t.Whole() && t.Footprint() == old(t.Footprint())
    ensures t.order == old(t.order) && t.Now() == old(t.Now()) && t.intact == old(t.intact)
  {
  }

  /** One of two trees counts a name; the other stays. */
  method CountIn(t: NameTree, other: NameTree, s: string, ghost log: seq<string>, ghost trace: seq<Snapshot>,
                 ghost log1: seq<string>, ghost trace1: seq<Snapshot>)
    returns (ghost trace': seq<Snapshot>)
    requires t.Whole() && other.Whole() && t.tree.nil == other.tree.nil && t.Footprint() !! other.Footprint() && Fits(s)
    requires AsRan(t, log, trace) && AsRan(other, log1, trace1)
    modifies t.Footprint()
    ensures t.Whole() && other.Whole() && fresh(t.Footprint() - old(t.Footprint()))
    ensures other.Footprint() == old(other.Footprint())
    ensures other.order == old(other.order) && other.Now() == old(other.Now()) && other.intact == old(other.intact)
    ensures |s| >= MAX_NAME_LEN ==> t.order == old(t.order) && t.Now().counts == old(t.Now()).counts
    ensures |s| < MAX_NAME_LEN ==>
      && t.order == [Normal(s)] + Removed(old(t.order), Normal(s))
      && t.Now().counts == OneMore(old(t.Now()).counts, Normal(s))
    ensures t.intact == old(t.intact) && AsRan(t, log + [s], trace') && AsRan(other, log1, trace1)
  {
    label before:
    trace' := CountOne(t, s, log, trace);
    TreeFrame@before(other);
  }

  method CountOne(t: NameTree, s: string, ghost log: seq<string>, ghost trace: seq<Snapshot>)
    returns (ghost trace': seq<Snapshot>)
    requires t.Whole() && Fits(s) && AsRan(t, log, trace)
    modifies t.Footprint()
    ensures t.Whole() && fresh(t.Footprint() - old(t.Footprint()))
    ensures |s| >= MAX_NAME_LEN ==> t.order == old(t.order) && t.Now().counts == old(t.Now()).counts
    ensures |s| < MAX_NAME_LEN ==>
      && t.order == [Normal(s)] + Removed(old(t.order), Normal(s))
      && t.Now().counts == OneMore(old(t.Now()).counts, Normal(s))
    ensures t.intact == old(t.intact) && AsRan(t, log + [s], trace')
  {
    ghost var before := t.Now();
    var r := t.Insert(s);
    t.NowIsFair();
    trace' := trace + [t.Now()];
    if t.intact {
      RanNext(log, trace, before, s, t.Now());
    }
  }

  /** The reply of one of two trees; both stay. */
  method ReplyFrom(t: NameTree, other: NameTree, ghost log: seq<string>, ghost trace: seq<Snapshot>, topn: nat)
    returns (shown: seq<string>, counts: seq<nat>)
    requires t.Whole() && other.Whole() && t.intact && AsRan(t, log, trace)
    ensures t.Whole() && other.Whole() && t.Now() == old(t.Now()) && other.Now() == old(other.Now())
    ensures t.Footprint() == old(t.Footprint()) && other.Footprint() == old(other.Footprint())
    ensures Replied(log, trace, topn, shown, counts)
  {
    label before:
    shown, counts := Reply(t, log, trace, topn);
    TreeFrame@before(other);
  }

  /** One of two trees loses its least recent name; the other stays. */
  method DropFrom(t: NameTree, other: NameTree) returns (dropped: bool)
    requires t.Whole() && other.Whole() && t.tree.nil == other.tree.nil && t.Footprint() !! other.Footprint()
    modifies t.Footprint()
    ensures t.Whole() && other.Whole() && t.Footprint() <= old(t.Footprint())
    ensures other.Footprint() == old(other.Footprint())
    ensures other.order == old(other.order) && other.Now() == old(other.Now()) && other.intact == old(other.intact)
    ensures dropped == (old(t.order) != [])
    ensures !dropped ==> t.order == old(t.order) && t.Now() == old(t.Now()) && t.intact == old(t.intact)
    ensures dropped ==>
      var n := |old(t.order)| - 1;
      !t.intact && t.order == old(t.order)[..n] && t.Now().counts == old(t.Now()).counts - {old(t.order)[n]}
  {
    label before:
    dropped := t.DropOldest();
    TreeFrame@before(other);
  }
}
