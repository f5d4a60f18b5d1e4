/**
  What the resolver promises, proved about the specification functions of
  module `Versions`: the choice of the multi-host scenario, the solo pair and
  the "latest" keys, the errors, the exclusion of the greatest plugin version,
  and memoization.
*/
module VersionProperties {
  import opened Wrappers
  import opened Ordering
  import opened Strconv
  import opened Versions

  /** `m` and `m'` agree on `key`, including on whether it is present. */
  ghost predicate SameAt(m: Mapping, m': Mapping, key: Key)
  {
    (key in m <==> key in m') && (key in m ==> m[key] == m'[key])
  }

  /** A value `m'` holds for `key` was already in `m` or is one of `vs`. */
  ghost predicate ValueFrom(m: Mapping, m': Mapping, key: Key, vs: seq<string>)
  {
    key in m' ==> m'[key] in vs || (key in m && m'[key] == m[key])
  }

  /** The keys the multi-host scan writes. */
  predicate IsMultiKey(key: Key)
  {
    key.MultiAvago1? || key.MultiAvago2? || key.MultiAvagoSubnetEVM?
  }

  /** The keys whose value is a plugin version. */
  predicate IsPluginKey(key: Key)
  {
    key.SoloSubnetEVM1? || key.SoloSubnetEVM2? || key.LatestEVM2Avago? || key.MultiAvagoSubnetEVM?
  }

  /** The keys of the solo pair. */
  predicate IsSoloKey(key: Key)
  {
    key.SoloSubnetEVM1? || key.SoloSubnetEVM2? || key.SoloAvago?
  }

  /** The keys the solo scan writes. */
  predicate IsScanKey(key: Key)
  {
    key.SoloSubnetEVM1? || key.SoloSubnetEVM2? || key.SoloAvago? || key.LatestEVM2Avago? || key.LatestAvago2EVM?
  }

  // ---------------------------------------------------------------------
  // getVersions and the truncation

  /** The sorted plugin versions do not depend on the map's iteration order. */
  lemma VersionsIgnoreIterationOrder(table: PluginTable, o1: seq<string>, o2: seq<string>)
    requires Enumerates(o1, table.Keys) && Enumerates(o2, table.Keys)
    ensures SortDesc(o1, LexLe) == SortDesc(o2, LexLe)
  {
    SameElementsSameMultiset(o1, o2);
    LexLeTotalOrder();
    SortDescDescending(o1, LexLe);
    SortDescDescending(o2, LexLe);
    DescendingUnique(SortDesc(o1, LexLe), SortDesc(o2, LexLe), LexLe);
  }

  /**
    Dropping the head of the sorted list drops exactly the greatest version
    in string order: it is in the table, every version is at most it, it is
    not in the truncated list, and every other version is.
  */
  lemma TruncationDropsGreatest(table: PluginTable, order: seq<string>)
    requires |table| > 0 && Enumerates(order, table.Keys)
    ensures var greatest := SortDesc(order, LexLe)[0];
      && greatest in table
      && (forall k :: k in table ==> LexLe(k, greatest))
      && (forall k :: k in Truncated(order) <==> k in table && k != greatest)
      && Descending(Truncated(order), LexLe) && Distinct(Truncated(order))
  {
    LexLeTotalOrder();
    SortDescDropHead(order, LexLe);
  }

  /** In string order "v0.5.9" > "v0.5.11" > "v0.5.10". */
  lemma ReleaseStringOrder()
    ensures LexLe("v0.5.11", "v0.5.9") && !LexLe("v0.5.9", "v0.5.11")
    ensures LexLe("v0.5.10", "v0.5.11") && !LexLe("v0.5.11", "v0.5.10")
    ensures !LexLe("v0.5.9", "v0.5.10")
  {
    assert "v0.5.9" == "v0.5." + "9" && "v0.5.11" == "v0.5." + "11";
    LexLeCommonPrefix("v0.5.", "11", "9");
    LexLeCommonPrefix("v0.5.", "9", "11");
    assert "v0.5.10" == "v0.5." + "10";
    LexLeCommonPrefix("v0.5.", "9", "10");
    assert "v0.5.11" == "v0.5.1" + "1" && "v0.5.10" == "v0.5.1" + "0";
    LexLeCommonPrefix("v0.5.1", "0", "1");
    LexLeCommonPrefix("v0.5.1", "1", "0");
  }

  /**
    String order is not release order. When the plugin table lists
    "v0.5.9", "v0.5.10" and "v0.5.11", the greatest string is "v0.5.9", so
    truncation drops that older release and keeps the highest release,
    "v0.5.11", selectable, whatever the iteration order.
  */
  lemma TruncationKeepsHighestRelease(table: PluginTable, order: seq<string>)
    requires table.Keys == {"v0.5.9", "v0.5.10", "v0.5.11"}
    requires Enumerates(order, table.Keys)
    ensures SortDesc(order, LexLe)[0] == "v0.5.9"
    ensures "v0.5.9" !in Truncated(order)
    ensures "v0.5.10" in Truncated(order) && "v0.5.11" in Truncated(order)
  {
    assert "v0.5.9" in table;
    TruncationDropsGreatest(table, order);
    ReleaseStringOrder();
    var greatest := SortDesc(order, LexLe)[0];
    assert LexLe("v0.5.9", greatest);
  }

  // ---------------------------------------------------------------------
  // The multi-host scan

  /** `first` and `second` are the two greatest entries of `vers` in string order. */
  ghost predicate IsTopTwo(vers: seq<string>, first: string, second: string)
  {
    && first in vers
    && (forall x :: x in vers ==> LexLe(x, first))
    && second in multiset(vers) - multiset{first}
    && (forall x :: x in multiset(vers) - multiset{first} ==> LexLe(x, second))
  }

  /** The head and the next of the descending sort are the two greatest entries. */
  lemma TopTwoHosts(vers: seq<string>)
    requires |vers| > 1
    ensures var s := SortDesc(vers, LexLe);
      IsTopTwo(vers, s[0], s[1]) && LexLe(s[1], s[0])
  {
    LexLeTotalOrder();
    SortDescTopTwo(vers, LexLe);
  }

  /** In a descending list, the first element with property `good` is the largest such. */
  lemma FirstIsLargest(rpcs: seq<int>, i: int, good: int -> bool)
    requires Descending(rpcs, IntLe) && 0 <= i < |rpcs|
    requires forall j :: 0 <= j < i ==> !good(rpcs[j])
    ensures forall q :: q in rpcs && good(q) ==> q <= rpcs[i]
  {
    forall q | q in rpcs && good(q) ensures q <= rpcs[i] {
      var k :| 0 <= k < |rpcs| && rpcs[k] == q;
      if i < k {
        assert IntLe(rpcs[k], rpcs[i]);
      }
    }
  }

  /** Over protocols in descending order, the first with several hosts is the largest such. */
  lemma MultiProtocolIsLargest(rpcs: seq<int>, hosts: HostTable)
    requires Descending(rpcs, IntLe)
    ensures MultiProtocol(rpcs, hosts).Some? ==>
              forall q :: q in rpcs && |HostsFor(hosts, q)| > 1 ==> q <= MultiProtocol(rpcs, hosts).value
  {
    var r := MultiProtocol(rpcs, hosts);
    if r.Some? {
      var i :| 0 <= i < |rpcs| && rpcs[i] == r.value
               && forall j :: 0 <= j < i ==> |HostsFor(hosts, rpcs[j])| <= 1;
      FirstIsLargest(rpcs, i, q => |HostsFor(hosts, q)| > 1);
    }
  }

  /** `versions[i]` is the first plugin version that speaks protocol `p`. */
  ghost predicate FirstWithProtocol(versions: seq<string>, table: PluginTable, p: int, i: int)
    requires forall v :: v in versions ==> v in table
  {
    && 0 <= i < |versions|
    && table[versions[i]] == p
    && (forall j :: 0 <= j < i ==> table[versions[j]] != p)
  }

  /**
    `m` records the multi-host scenario for protocol `p`: its two greatest
    hosts, and the first plugin version that speaks `p` exactly when there is
    one.
  */
  ghost predicate MultiChosen(hosts: HostTable, versions: seq<string>, table: PluginTable, p: int, m: Mapping)
    requires forall v :: v in versions ==> v in table
  {
    && MultiAvago1 in m && MultiAvago2 in m
    && IsTopTwo(HostsFor(hosts, p), m[MultiAvago1], m[MultiAvago2])
    && LexLe(m[MultiAvago2], m[MultiAvago1])
    && (MultiAvagoSubnetEVM in m <==> exists i :: 0 <= i < |versions| && table[versions[i]] == p)
    && (MultiAvagoSubnetEVM in m ==>
          exists i :: FirstWithProtocol(versions, table, p, i) && m[MultiAvagoSubnetEVM] == versions[i])
  }

  /**
    The multi-host scan over protocols in descending order, starting from a
    mapping without multi-host keys: if some protocol has more than one host,
    the largest such protocol supplies its two greatest hosts, and the first
    plugin version of that protocol, if there is one; otherwise nothing is
    written. No other key changes.
  */
  lemma MultiHostChoice(rpcs: seq<int>, hosts: HostTable, versions: seq<string>, table: PluginTable,
                        m: Mapping)
    requires Descending(rpcs, IntLe)
    requires forall v :: v in versions ==> v in table
    requires forall key :: IsMultiKey(key) ==> key !in m
    ensures var m' := MultiHost(rpcs, hosts, versions, table, m);
      && ((forall q :: q in rpcs ==> |HostsFor(hosts, q)| <= 1) ==> m' == m)
      && ((exists q :: q in rpcs && |HostsFor(hosts, q)| > 1) ==>
            exists p ::
              && p in rpcs && |HostsFor(hosts, p)| > 1
              && (forall q :: q in rpcs && |HostsFor(hosts, q)| > 1 ==> q <= p)
              && MultiChosen(hosts, versions, table, p, m'))
  {
    MultiHostFrame(rpcs, hosts, versions, table, m);
    MultiHostWrites(rpcs, hosts, versions, table, m);
    MultiProtocolIsLargest(rpcs, hosts);
    var r := MultiProtocol(rpcs, hosts);
    if r.Some? {
      var p := r.value;
      TopTwoHosts(HostsFor(hosts, p));
      var f := FirstOfProtocol(versions, table, p);
      if f.Some? {
        var i :| 0 <= i < |versions| && versions[i] == f.value && table[f.value] == p
                 && forall j :: 0 <= j < i ==> table[versions[j]] != p;
        assert FirstWithProtocol(versions, table, p, i);
      }
      assert MultiChosen(hosts, versions, table, p, MultiHost(rpcs, hosts, versions, table, m));
    } else {
      assert forall q :: q in rpcs ==> |HostsFor(hosts, q)| <= 1;
    }
  }

  /**
    The multi-host scan changes only its own keys, writes nothing when no
    protocol has several hosts, and takes its plugin version from the list.
  */
  lemma MultiHostFrame(rpcs: seq<int>, hosts: HostTable, versions: seq<string>, table: PluginTable,
                       m: Mapping)
    requires forall v :: v in versions ==> v in table
    ensures var m' := MultiHost(rpcs, hosts, versions, table, m);
      && (forall key :: !IsMultiKey(key) ==> SameAt(m, m', key))
      && (MultiProtocol(rpcs, hosts).None? ==> m' == m)
      && ValueFrom(m, m', MultiAvagoSubnetEVM, versions)
  {
    var m' := MultiHost(rpcs, hosts, versions, table, m);
    if MultiProtocol(rpcs, hosts).Some? {
      var f := FirstOfProtocol(versions, table, MultiProtocol(rpcs, hosts).value);
      if f.Some? {
        assert m'[MultiAvagoSubnetEVM] == f.value;
      }
    }
  }

  /** What the multi-host scan writes once it has found its protocol. */
  lemma MultiHostWrites(rpcs: seq<int>, hosts: HostTable, versions: seq<string>, table: PluginTable,
                        m: Mapping)
    requires forall v :: v in versions ==> v in table
    requires MultiAvagoSubnetEVM !in m
    ensures var m' := MultiHost(rpcs, hosts, versions, table, m);
      (MultiProtocol(rpcs, hosts).Some? ==>
            var p := MultiProtocol(rpcs, hosts).value;
            var f := FirstOfProtocol(versions, table, p);
            && MultiAvago1 in m' && m'[MultiAvago1] == SortDesc(HostsFor(hosts, p), LexLe)[0]
            && MultiAvago2 in m' && m'[MultiAvago2] == SortDesc(HostsFor(hosts, p), LexLe)[1]
            && (MultiAvagoSubnetEVM in m' <==> f.Some?)
            && (f.Some? ==> m'[MultiAvagoSubnetEVM] == f.value))
  {
    match MultiProtocol(rpcs, hosts)
    case None =>
    case Some(p) =>
      var vers := SortDesc(HostsFor(hosts, p), LexLe);
      var m1 := m[MultiAvago1 := vers[0]][MultiAvago2 := vers[1]];
      assert MultiAvagoSubnetEVM !in m1;
      match FirstOfProtocol(versions, table, p)
      case None =>
        assert MultiHost(rpcs, hosts, versions, table, m) == m1;
      case Some(v) =>
        assert MultiHost(rpcs, hosts, versions, table, m) == m1[MultiAvagoSubnetEVM := v];
  }

  // ---------------------------------------------------------------------
  // The solo scan

  /**
    The scan started at pair `i` gets as far as pair `k`: every pair before
    `k` has differing protocols and a successful lookup.
  */
  ghost predicate ScanReaches(vs: seq<string>, table: PluginTable, lookup: HostLookup, i: int, k: int)
    requires forall v :: v in vs ==> v in table
  {
    && 0 <= i <= k < |vs| - 1
    && (forall j :: i <= j < k ==> table[vs[j]] != table[vs[j + 1]] && lookup(table[vs[j]]).Ok?)
  }

  /** From pair `i` on, no pair shares a protocol and every lookup succeeds. */
  ghost predicate NoPairFrom(vs: seq<string>, table: PluginTable, lookup: HostLookup, i: nat)
    requires forall v :: v in vs ==> v in table
  {
    forall j :: i <= j < |vs| - 1 ==> table[vs[j]] != table[vs[j + 1]] && lookup(table[vs[j]]).Ok?
  }

  /** `m` records pair `k` as the solo pair, with the host the lookup gave. */
  ghost predicate SoloRecorded(vs: seq<string>, table: PluginTable, lookup: HostLookup, k: int, m: Mapping)
    requires forall v :: v in vs ==> v in table
    requires 0 <= k < |vs| - 1
  {
    && SoloSubnetEVM1 in m && m[SoloSubnetEVM1] == vs[k]
    && SoloSubnetEVM2 in m && m[SoloSubnetEVM2] == vs[k + 1]
    && SoloAvago in m && lookup(table[vs[k]]) == Ok(m[SoloAvago])
  }

  /**
    The three ways the scan from pair `i` ends. It succeeds by recording the
    first pair (from `i`) whose versions share a protocol, provided every
    lookup up to it succeeded; it fails with a lookup error at the first
    failing lookup; and it fails with `NoCompatiblePair` when it reaches the
    last element. An empty list succeeds without writing anything.
  */
  lemma {:induction false} SoloScanOutcome(vs: seq<string>, table: PluginTable, lookup: HostLookup,
                                           m: Mapping, i: nat)
    requires i <= |vs|
    requires forall v :: v in vs ==> v in table
    ensures var r := SoloFrom(vs, table, lookup, m, i);
      && (i == |vs| ==> r == (m, None))
      && (r.1.None? && i < |vs| ==>
            exists k :: ScanReaches(vs, table, lookup, i, k) && table[vs[k]] == table[vs[k + 1]]
                        && SoloRecorded(vs, table, lookup, k, r.0))
      && (r.1 == Some(NoCompatiblePair) <==> i < |vs| && NoPairFrom(vs, table, lookup, i))
      && (r.1.Some? ==> r.1.value == NoCompatiblePair || r.1.value.LookupFailed?)
      && ((exists k :: ScanReaches(vs, table, lookup, i, k) && lookup(table[vs[k]]).Err?) ==>
            r.1.Some? && r.1.value.LookupFailed?)
      && (r.1.Some? && r.1.value.LookupFailed? ==>
            exists k :: ScanReaches(vs, table, lookup, i, k) && lookup(table[vs[k]]) == Err(r.1.value.msg))
    decreases |vs| - i
  {
    var r := SoloFrom(vs, table, lookup, m, i);
    if i == |vs| || i + 1 == |vs| {
    } else {
      var first, second := vs[i], vs[i + 1];
      assert ScanReaches(vs, table, lookup, i, i);
      match lookup(table[first])
      case Err(msg) =>
        assert !NoPairFrom(vs, table, lookup, i);
      case Ok(soloAvago) =>
        if table[first] == table[second] {
          assert !NoPairFrom(vs, table, lookup, i);
          assert forall k :: ScanReaches(vs, table, lookup, i, k) ==> k == i;
        } else {
          var m1 := if Get(m, LatestEVM2Avago) == "" then m[LatestEVM2Avago := first][LatestAvago2EVM := soloAvago] else m;
          assert r == SoloFrom(vs, table, lookup, m1, i + 1);
          SoloScanOutcome(vs, table, lookup, m1, i + 1);
          ScanReachesStep(vs, table, lookup, i);
          assert NoPairFrom(vs, table, lookup, i) <==> NoPairFrom(vs, table, lookup, i + 1);
        }
    }
  }

  /** Past a pair with differing protocols and a successful lookup, the scan from `i` is the scan from `i + 1`. */
  lemma ScanReachesStep(vs: seq<string>, table: PluginTable, lookup: HostLookup, i: nat)
    requires forall v :: v in vs ==> v in table
    requires i + 1 < |vs| && table[vs[i]] != table[vs[i + 1]] && lookup(table[vs[i]]).Ok?
    ensures forall k :: ScanReaches(vs, table, lookup, i, k) <==> k == i || ScanReaches(vs, table, lookup, i + 1, k)
  {
  }

  /** The solo scan writes only its own keys, with versions from the list. */
  lemma {:induction false} SoloScanFrame(vs: seq<string>, table: PluginTable, lookup: HostLookup,
                                         m: Mapping, i: nat)
    requires i <= |vs|
    requires forall v :: v in vs ==> v in table
    ensures var m' := SoloFrom(vs, table, lookup, m, i).0;
      && (forall key :: !IsScanKey(key) ==> SameAt(m, m', key))
      && ValueFrom(m, m', SoloSubnetEVM1, vs)
      && ValueFrom(m, m', SoloSubnetEVM2, vs)
      && ValueFrom(m, m', LatestEVM2Avago, vs)
    decreases |vs| - i
  {
    if i < |vs| && i + 1 < |vs| {
      var first, second := vs[i], vs[i + 1];
      match lookup(table[first])
      case Err(_) =>
      case Ok(soloAvago) =>
        if table[first] != table[second] {
          var m1 := if Get(m, LatestEVM2Avago) == "" then m[LatestEVM2Avago := first][LatestAvago2EVM := soloAvago] else m;
          SoloScanFrame(vs, table, lookup, m1, i + 1);
        }
    }
  }

  /** Once the "latest" plugin key reads as non-empty, the scan never rewrites either "latest" key. */
  lemma {:induction false} LatestKept(vs: seq<string>, table: PluginTable, lookup: HostLookup,
                                      m: Mapping, i: nat)
    requires i <= |vs|
    requires forall v :: v in vs ==> v in table
    requires Get(m, LatestEVM2Avago) != ""
    ensures var m' := SoloFrom(vs, table, lookup, m, i).0;
      SameAt(m, m', LatestEVM2Avago) && SameAt(m, m', LatestAvago2EVM)
    decreases |vs| - i
  {
    if i < |vs| && i + 1 < |vs| {
      match lookup(table[vs[i]])
      case Err(_) =>
      case Ok(_) =>
        if table[vs[i]] != table[vs[i + 1]] {
          LatestKept(vs, table, lookup, m, i + 1);
        }
    }
  }

  /**
    Starting without solo keys, the scan from pair `i` leaves the solo keys
    exactly when it ends without error having visited a pair: a failing
    scan never leaves them.
  */
  lemma {:induction false} SoloKeysOnSuccess(vs: seq<string>, table: PluginTable, lookup: HostLookup,
                                             m: Mapping, i: nat)
    requires i <= |vs|
    requires forall v :: v in vs ==> v in table
    requires forall key :: IsSoloKey(key) ==> key !in m
    ensures var r := SoloFrom(vs, table, lookup, m, i);
      forall key :: IsSoloKey(key) ==> (key in r.0 <==> r.1.None? && i < |vs|)
    decreases |vs| - i
  {
    if i < |vs| && i + 1 < |vs| {
      var first, second := vs[i], vs[i + 1];
      match lookup(table[first])
      case Err(_) =>
      case Ok(soloAvago) =>
        if table[first] != table[second] {
          var m1 := if Get(m, LatestEVM2Avago) == "" then m[LatestEVM2Avago := first][LatestAvago2EVM := soloAvago] else m;
          SoloKeysOnSuccess(vs, table, lookup, m1, i + 1);
        }
    }
  }

  /**
    The "latest" keys are written at most once, by the first pair visited,
    and only when that pair's protocols differ and its lookup succeeds:
    a first pair sharing a protocol ends the scan, and once written the
    non-empty version keeps the guard closed. This relies on the first
    version not being the empty string.
  */
  lemma LatestFromFirstPair(vs: seq<string>, table: PluginTable, lookup: HostLookup, m: Mapping)
    requires forall v :: v in vs ==> v in table
    requires LatestEVM2Avago !in m && LatestAvago2EVM !in m
    requires |vs| > 1 ==> vs[0] != ""
    ensures var m' := SoloFrom(vs, table, lookup, m, 0).0;
      if |vs| > 1 && table[vs[0]] != table[vs[1]] && lookup(table[vs[0]]).Ok? then
        && LatestEVM2Avago in m' && m'[LatestEVM2Avago] == vs[0]
        && LatestAvago2EVM in m' && Ok(m'[LatestAvago2EVM]) == lookup(table[vs[0]])
      else
        LatestEVM2Avago !in m' && LatestAvago2EVM !in m'
  {
    if |vs| > 1 && table[vs[0]] != table[vs[1]] && lookup(table[vs[0]]).Ok? {
      var m1 := m[LatestEVM2Avago := vs[0]][LatestAvago2EVM := lookup(table[vs[0]]).value];
      LatestKept(vs, table, lookup, m1, 1);
    }
  }

  /**
    An example: with the plugin versions "0.9.0" and "0.8.0" both on
    protocol 9, the scan records them as the solo pair.
  */
  lemma SoloScanExample(lookup: HostLookup)
    requires lookup(9) == Ok("1.9.0")
    ensures SoloFrom(["0.9.0", "0.8.0"], map["1.0.0" := 10, "0.9.0" := 9, "0.8.0" := 9], lookup, map[], 0)
            == (map[SoloSubnetEVM1 := "0.9.0", SoloSubnetEVM2 := "0.8.0", SoloAvago := "1.9.0"], None)
  {
  }

  // ---------------------------------------------------------------------
  // The whole resolution

  /** The protocols the scan visits are exactly the host-table keys as `Atoi` reads them. */
  lemma ProtocolsAreParsedKeys(hosts: HostTable, order: seq<string>)
    requires Enumerates(order, hosts.Keys)
    requires Protocols(order).Ok?
    ensures Descending(Protocols(order).value, IntLe)
    ensures forall q :: q in Protocols(order).value <==> exists k :: k in hosts && Atoi(k) == Some(q)
  {
    var ns := ParseKeys(order).value;
    var rpcs := Protocols(order).value;
    IntLeTotalOrder();
    SortDescDescending(ns, IntLe);
    forall q ensures q in rpcs <==> exists k :: k in hosts && Atoi(k) == Some(q) {
      assert q in rpcs <==> q in multiset(ns);
      if q in ns {
        var i :| 0 <= i < |ns| && ns[i] == q;
        assert order[i] in hosts && Atoi(order[i]) == Some(q);
      }
      if exists k :: k in hosts && Atoi(k) == Some(q) {
        var k :| k in hosts && Atoi(k) == Some(q);
        var i :| 0 <= i < |order| && order[i] == k;
        assert ns[i] == q;
      }
    }
  }

  /**
    A non-canonical protocol key parses, but its hosts are looked up under
    the canonical rendering, which the host table does not hold: the two
    hosts under "07" are never seen by the multi-host scan.
  */
  lemma NonCanonicalKeyHidesHosts()
    ensures var hosts := map["07" := ["1.1.0", "1.0.0"]];
      && Protocols(["07"]) == Ok([7])
      && HostsFor(hosts, 7) == []
      && MultiProtocol([7], hosts).None?
  {
    NonCanonicalKeys();
    var keys: seq<string> := ["07"];
    assert keys[..|keys| - 1] == [] && keys[|keys| - 1] == "07";
    assert ParseKeys(keys[..|keys| - 1]) == Ok([]);
    assert ParseKeys(keys) == Ok([] + [7]);
    assert SortDesc([7], IntLe) == [7];
  }

  /** `p` is a protocol the host table lists (as `Atoi` reads its keys) with more than one host. */
  ghost predicate MultiCandidate(hosts: HostTable, p: int)
  {
    (exists k :: k in hosts && Atoi(k) == Some(p)) && |HostsFor(hosts, p)| > 1
  }

  /**
    Errors and the memo they leave. A failed download returns its error and
    leaves no memo; a host-table key `Atoi` rejects returns a
    `MalformedProtocol` error naming a rejected key and leaves an empty memo;
    every call that gets past the parse leaves a memo, which on success is
    the returned mapping.
  */
  lemma ResolveErrors(pluginDoc: Result<PluginTable, string>, pluginOrder: seq<string>,
                      hostDoc: Result<HostTable, string>, hostOrder: seq<string>, lookup: HostLookup)
    requires Runnable(pluginDoc, pluginOrder, hostDoc, hostOrder)
    ensures var o := Resolve(pluginDoc, pluginOrder, hostDoc, hostOrder, lookup);
      && (pluginDoc.Err? ==> o == Outcome(Err(LoadFailed(pluginDoc.error)), None))
      && (pluginDoc.Ok? && hostDoc.Err? ==> o == Outcome(Err(LoadFailed(hostDoc.error)), None))
      && (pluginDoc.Ok? && hostDoc.Ok? ==>
            && o.cache.Some?
            && (o.result.Ok? ==> o.cache == Some(o.result.value))
            && ((exists k :: k in hostDoc.value && Atoi(k).None?) <==>
                  o.result.Err? && o.result.error.MalformedProtocol?)
            && (o.result.Err? && o.result.error.MalformedProtocol? ==>
                  o.cache == Some(map[])
                  && o.result.error.key in hostDoc.value && Atoi(o.result.error.key).None?))
  {
    if pluginDoc.Ok? && hostDoc.Ok? {
      var table, hosts := pluginDoc.value, hostDoc.value;
      var parsed := ParseKeys(hostOrder);
      if parsed.Err? {
        var i :| FirstRejected(hostOrder, i) && parsed.error == MalformedProtocol(hostOrder[i]);
        assert hostOrder[i] in hosts;
      } else {
        forall k | k in hosts ensures Atoi(k).Some? {
          var i :| 0 <= i < |hostOrder| && hostOrder[i] == k;
        }
        var versions := Truncated(pluginOrder);
        assert forall v :: v in versions ==> v in multiset(pluginOrder);
        var multi := MultiHost(Protocols(hostOrder).value, hosts, versions, table, map[]);
        SoloScanOutcome(versions, table, lookup, multi[OnlyAvago := "latest"], 0);
      }
    }
  }

  /** Every host-table key parses exactly when the protocol list is available. */
  lemma AllKeysParse(hosts: HostTable, hostOrder: seq<string>)
    requires Enumerates(hostOrder, hosts.Keys)
    ensures Protocols(hostOrder).Ok? <==> forall k :: k in hosts ==> Atoi(k).Some?
  {
    if Protocols(hostOrder).Err? {
      var i :| FirstRejected(hostOrder, i);
      assert hostOrder[i] in hosts;
    } else {
      forall k | k in hosts ensures Atoi(k).Some? {
        var i :| 0 <= i < |hostOrder| && hostOrder[i] == k;
      }
    }
  }

  /** A resolution that gets past the parse returns and memoizes what `Scenarios` fills. */
  lemma ResolveSteps(table: PluginTable, pluginOrder: seq<string>,
                     hosts: HostTable, hostOrder: seq<string>, lookup: HostLookup)
    requires Runnable(Ok(table), pluginOrder, Ok(hosts), hostOrder)
    requires Protocols(hostOrder).Ok?
    ensures forall v :: v in Truncated(pluginOrder) ==> v in table
    ensures var r := Scenarios(Truncated(pluginOrder), table, Protocols(hostOrder).value, hosts, lookup);
      Resolve(Ok(table), pluginOrder, Ok(hosts), hostOrder, lookup)
        == Outcome(if r.1.Some? then Err(r.1.value) else Ok(r.0), Some(r.0))
  {
    assert forall v :: v in Truncated(pluginOrder) ==> v in multiset(pluginOrder);
  }

  // ---------------------------------------------------------------------
  // The scenarios, once the tables are read and the protocols parsed

  /**
    With no plugin version left the solo scan does not run: no solo or
    "latest" key is written and there is no error. With one left it fails
    with `NoCompatiblePair`.
  */
  lemma ScenariosOfShortLists(vs: seq<string>, table: PluginTable, rpcs: seq<int>, hosts: HostTable,
                              lookup: HostLookup)
    requires forall v :: v in vs ==> v in table
    requires |vs| <= 1
    ensures var r := Scenarios(vs, table, rpcs, hosts, lookup);
      && (|vs| == 0 ==> r.1.None? && forall key :: IsScanKey(key) ==> key !in r.0)
      && (|vs| == 1 ==> r.1 == Some(NoCompatiblePair))
  {
    var multi := MultiHost(rpcs, hosts, vs, table, map[]);
    MultiHostFrame(rpcs, hosts, vs, table, map[]);
    var m0 := multi[OnlyAvago := "latest"];
    forall key | IsScanKey(key) ensures key !in m0 {
      assert SameAt(map[], multi, key);
    }
  }

  /** The host-only scenario is always "latest". */
  lemma ScenariosOnlyAvago(vs: seq<string>, table: PluginTable, rpcs: seq<int>, hosts: HostTable,
                           lookup: HostLookup)
    requires forall v :: v in vs ==> v in table
    ensures var m := Scenarios(vs, table, rpcs, hosts, lookup).0;
      OnlyAvago in m && m[OnlyAvago] == "latest"
  {
    var m0 := MultiHost(rpcs, hosts, vs, table, map[])[OnlyAvago := "latest"];
    SoloScanFrame(vs, table, lookup, m0, 0);
    assert SameAt(m0, SoloFrom(vs, table, lookup, m0, 0).0, OnlyAvago);
  }

  /** The solo scan leaves the multi-host keys as the multi-host scan wrote them. */
  lemma ScenariosKeepMultiKeys(vs: seq<string>, table: PluginTable, rpcs: seq<int>, hosts: HostTable,
                               lookup: HostLookup)
    requires forall v :: v in vs ==> v in table
    ensures forall key :: IsMultiKey(key) ==>
              SameAt(MultiHost(rpcs, hosts, vs, table, map[]), Scenarios(vs, table, rpcs, hosts, lookup).0, key)
  {
    var multi := MultiHost(rpcs, hosts, vs, table, map[]);
    var m0 := multi[OnlyAvago := "latest"];
    SoloScanFrame(vs, table, lookup, m0, 0);
    var m := SoloFrom(vs, table, lookup, m0, 0).0;
    forall key | IsMultiKey(key) ensures SameAt(multi, m, key) {
      assert SameAt(multi, m0, key) && SameAt(m0, m, key);
    }
  }

  /** `MultiChosen` depends on the multi-host keys alone. */
  lemma MultiChosenTransfer(hosts: HostTable, vs: seq<string>, table: PluginTable, p: int, m: Mapping, m': Mapping)
    requires forall v :: v in vs ==> v in table
    requires MultiChosen(hosts, vs, table, p, m)
    requires SameAt(m, m', MultiAvago1) && SameAt(m, m', MultiAvago2) && SameAt(m, m', MultiAvagoSubnetEVM)
    ensures MultiChosen(hosts, vs, table, p, m')
  {
  }

  /** The multi-host scenario survives the solo scan unchanged. */
  lemma ScenariosMultiHost(vs: seq<string>, table: PluginTable, rpcs: seq<int>, hosts: HostTable,
                           lookup: HostLookup)
    requires forall v :: v in vs ==> v in table
    requires Descending(rpcs, IntLe)
    ensures var m := Scenarios(vs, table, rpcs, hosts, lookup).0;
      && ((forall q :: q in rpcs ==> |HostsFor(hosts, q)| <= 1) ==> forall key :: IsMultiKey(key) ==> key !in m)
      && ((exists q :: q in rpcs && |HostsFor(hosts, q)| > 1) ==>
            exists p ::
              && p in rpcs && |HostsFor(hosts, p)| > 1
              && (forall q :: q in rpcs && |HostsFor(hosts, q)| > 1 ==> q <= p)
              && MultiChosen(hosts, vs, table, p, m))
  {
    var multi := MultiHost(rpcs, hosts, vs, table, map[]);
    var m := Scenarios(vs, table, rpcs, hosts, lookup).0;
    MultiHostChoice(rpcs, hosts, vs, table, map[]);
    ScenariosKeepMultiKeys(vs, table, rpcs, hosts, lookup);
    assert SameAt(multi, m, MultiAvago1) && SameAt(multi, m, MultiAvago2) && SameAt(multi, m, MultiAvagoSubnetEVM);
    if exists q :: q in rpcs && |HostsFor(hosts, q)| > 1 {
      var p :| && p in rpcs && |HostsFor(hosts, p)| > 1
               && (forall q :: q in rpcs && |HostsFor(hosts, q)| > 1 ==> q <= p)
               && MultiChosen(hosts, vs, table, p, multi);
      MultiChosenTransfer(hosts, vs, table, p, multi, m);
    }
  }

  /** How the solo scan ends, over the plugin versions left after truncation. */
  lemma ScenariosOutcome(vs: seq<string>, table: PluginTable, rpcs: seq<int>, hosts: HostTable,
                         lookup: HostLookup)
    requires forall v :: v in vs ==> v in table
    ensures var r := Scenarios(vs, table, rpcs, hosts, lookup);
      && (r.1.None? && |vs| > 0 ==>
            exists k :: ScanReaches(vs, table, lookup, 0, k) && table[vs[k]] == table[vs[k + 1]]
                        && SoloRecorded(vs, table, lookup, k, r.0))
      && (r.1 == Some(NoCompatiblePair) <==> |vs| > 0 && NoPairFrom(vs, table, lookup, 0))
      && (r.1.Some? ==> r.1.value == NoCompatiblePair || r.1.value.LookupFailed?)
      && ((exists k :: ScanReaches(vs, table, lookup, 0, k) && lookup(table[vs[k]]).Err?) ==>
            r.1.Some? && r.1.value.LookupFailed?)
      && (r.1.Some? && r.1.value.LookupFailed? ==>
            exists k :: ScanReaches(vs, table, lookup, 0, k) && lookup(table[vs[k]]) == Err(r.1.value.msg))
  {
    var m0 := MultiHost(rpcs, hosts, vs, table, map[])[OnlyAvago := "latest"];
    SoloScanOutcome(vs, table, lookup, m0, 0);
  }

  /** The filled mapping holds the solo keys exactly when the solo scan visited a pair and succeeded. */
  lemma ScenariosSoloKeys(vs: seq<string>, table: PluginTable, rpcs: seq<int>, hosts: HostTable,
                          lookup: HostLookup)
    requires forall v :: v in vs ==> v in table
    ensures var r := Scenarios(vs, table, rpcs, hosts, lookup);
      forall key :: IsSoloKey(key) ==> (key in r.0 <==> r.1.None? && |vs| > 0)
  {
    var multi := MultiHost(rpcs, hosts, vs, table, map[]);
    MultiHostFrame(rpcs, hosts, vs, table, map[]);
    var m0 := multi[OnlyAvago := "latest"];
    forall key | IsSoloKey(key) ensures key !in m0 {
      assert SameAt(map[], multi, key);
    }
    SoloKeysOnSuccess(vs, table, lookup, m0, 0);
  }

  /** The "latest" keys hold the first version and its lookup exactly when the first pair differs. */
  lemma ScenariosLatest(vs: seq<string>, table: PluginTable, rpcs: seq<int>, hosts: HostTable,
                        lookup: HostLookup)
    requires forall v :: v in vs ==> v in table
    requires |vs| > 1 ==> vs[0] != ""
    ensures var m := Scenarios(vs, table, rpcs, hosts, lookup).0;
      if |vs| > 1 && table[vs[0]] != table[vs[1]] && lookup(table[vs[0]]).Ok? then
        && LatestEVM2Avago in m && m[LatestEVM2Avago] == vs[0]
        && LatestAvago2EVM in m && Ok(m[LatestAvago2EVM]) == lookup(table[vs[0]])
      else
        LatestEVM2Avago !in m && LatestAvago2EVM !in m
  {
    var multi := MultiHost(rpcs, hosts, vs, table, map[]);
    MultiHostFrame(rpcs, hosts, vs, table, map[]);
    assert SameAt(map[], multi, LatestEVM2Avago) && SameAt(map[], multi, LatestAvago2EVM);
    LatestFromFirstPair(vs, table, lookup, multi[OnlyAvago := "latest"]);
  }

  /** Every plugin-version key written holds a version of the list. */
  lemma ScenariosPluginValues(vs: seq<string>, table: PluginTable, rpcs: seq<int>, hosts: HostTable,
                              lookup: HostLookup)
    requires forall v :: v in vs ==> v in table
    ensures var m := Scenarios(vs, table, rpcs, hosts, lookup).0;
      forall key :: IsPluginKey(key) && key in m ==> m[key] in vs
  {
    var multi := MultiHost(rpcs, hosts, vs, table, map[]);
    MultiHostFrame(rpcs, hosts, vs, table, map[]);
    var m0 := multi[OnlyAvago := "latest"];
    SoloScanFrame(vs, table, lookup, m0, 0);
    var m := SoloFrom(vs, table, lookup, m0, 0).0;
    assert SameAt(map[], multi, SoloSubnetEVM1) && SameAt(map[], multi, SoloSubnetEVM2);
    assert SameAt(map[], multi, LatestEVM2Avago);
    assert SameAt(m0, m, MultiAvagoSubnetEVM);
  }

  // ---------------------------------------------------------------------
  // The same properties of a whole resolution

  /**
    The ends of the plugin table: with one version the truncated list is
    empty, the scan does not run and the call succeeds without solo or
    "latest" keys; with two versions the scan reaches the last element at
    once and the call fails with `NoCompatiblePair`.
  */
  lemma ResolveSmallTables(table: PluginTable, pluginOrder: seq<string>,
                           hosts: HostTable, hostOrder: seq<string>, lookup: HostLookup)
    requires Runnable(Ok(table), pluginOrder, Ok(hosts), hostOrder)
    requires forall k :: k in hosts ==> Atoi(k).Some?
    ensures var o := Resolve(Ok(table), pluginOrder, Ok(hosts), hostOrder, lookup);
      && (|table| == 1 ==> o.result.Ok? && forall key :: IsScanKey(key) ==> key !in o.result.value)
      && (|table| == 2 ==> o.result == Err(NoCompatiblePair))
  {
    AllKeysParse(hosts, hostOrder);
    ResolveSteps(table, pluginOrder, hosts, hostOrder, lookup);
    var vs := Truncated(pluginOrder);
    assert |vs| == |table| - 1 by {
      assert |table| == |table.Keys| == |pluginOrder|;
    }
    if |vs| <= 1 {
      ScenariosOfShortLists(vs, table, Protocols(hostOrder).value, hosts, lookup);
    }
  }

  /**
    The host-only scenario of the returned mapping and of the memo. On
    success it is always "latest". A memo holds it, as "latest", exactly when
    every host-table key parses; the empty memo a malformed key leaves does
    not, and a later call returns that memo as its successful result.
  */
  lemma ResolveOnlyAvago(pluginDoc: Result<PluginTable, string>, pluginOrder: seq<string>,
                         hostDoc: Result<HostTable, string>, hostOrder: seq<string>, lookup: HostLookup)
    requires Runnable(pluginDoc, pluginOrder, hostDoc, hostOrder)
    ensures var o := Resolve(pluginDoc, pluginOrder, hostDoc, hostOrder, lookup);
      && (o.result.Ok? ==> OnlyAvago in o.result.value && o.result.value[OnlyAvago] == "latest")
      && (o.cache.Some? ==>
            && hostDoc.Ok?
            && (OnlyAvago in o.cache.value <==> forall k :: k in hostDoc.value ==> Atoi(k).Some?)
            && (OnlyAvago in o.cache.value ==> o.cache.value[OnlyAvago] == "latest"))
  {
    if pluginDoc.Ok? && hostDoc.Ok? {
      AllKeysParse(hostDoc.value, hostOrder);
      if Protocols(hostOrder).Ok? {
        ResolveSteps(pluginDoc.value, pluginOrder, hostDoc.value, hostOrder, lookup);
        ScenariosOnlyAvago(Truncated(pluginOrder), pluginDoc.value, Protocols(hostOrder).value,
                           hostDoc.value, lookup);
      }
    }
  }

  /**
    The multi-host scenario of a resolution that got past the parse (the
    returned mapping on success, the memo on failure): the largest protocol
    with more than one host supplies its two greatest hosts, and the first
    remaining plugin version of that protocol, if any; with no such protocol
    none of the three keys is written.
  */
  lemma ResolveMultiHost(table: PluginTable, pluginOrder: seq<string>,
                         hosts: HostTable, hostOrder: seq<string>, lookup: HostLookup)
    requires Runnable(Ok(table), pluginOrder, Ok(hosts), hostOrder)
    requires forall k :: k in hosts ==> Atoi(k).Some?
    ensures forall v :: v in Truncated(pluginOrder) ==> v in table
    ensures var o := Resolve(Ok(table), pluginOrder, Ok(hosts), hostOrder, lookup);
      && o.cache.Some?
      && ((forall p :: !MultiCandidate(hosts, p)) ==>
            forall key :: IsMultiKey(key) ==> key !in o.cache.value)
      && ((exists p :: MultiCandidate(hosts, p)) ==>
            exists p ::
              && MultiCandidate(hosts, p)
              && (forall q :: MultiCandidate(hosts, q) ==> q <= p)
              && MultiChosen(hosts, Truncated(pluginOrder), table, p, o.cache.value))
  {
    AllKeysParse(hosts, hostOrder);
    ResolveSteps(table, pluginOrder, hosts, hostOrder, lookup);
    var rpcs := Protocols(hostOrder).value;
    ProtocolsAreParsedKeys(hosts, hostOrder);
    ScenariosMultiHost(Truncated(pluginOrder), table, rpcs, hosts, lookup);
    assert forall q :: MultiCandidate(hosts, q) <==> q in rpcs && |HostsFor(hosts, q)| > 1;
  }

  /**
    The solo pair of a successful resolution: over the truncated, descending
    plugin list, the first adjacent pair that shares a protocol (every pair
    before it differs and had a successful lookup), with the lookup's host
    for that protocol. The memo holds the solo keys exactly when the call
    succeeded with at least one version left, so the memo of a failed call
    never does.
  */
  lemma ResolveSoloPair(table: PluginTable, pluginOrder: seq<string>,
                        hosts: HostTable, hostOrder: seq<string>, lookup: HostLookup)
    requires Runnable(Ok(table), pluginOrder, Ok(hosts), hostOrder)
    ensures forall v :: v in Truncated(pluginOrder) ==> v in table
    ensures var o := Resolve(Ok(table), pluginOrder, Ok(hosts), hostOrder, lookup);
      var vs := Truncated(pluginOrder);
      && (o.result.Ok? && |vs| > 0 ==>
            exists k :: ScanReaches(vs, table, lookup, 0, k) && table[vs[k]] == table[vs[k + 1]]
                        && SoloRecorded(vs, table, lookup, k, o.result.value))
      && o.cache.Some?
      && forall key :: IsSoloKey(key) ==> (key in o.cache.value <==> o.result.Ok? && |vs| > 0)
  {
    assert forall v :: v in Truncated(pluginOrder) ==> v in multiset(pluginOrder);
    if Protocols(hostOrder).Ok? {
      ResolveSteps(table, pluginOrder, hosts, hostOrder, lookup);
      ScenariosOutcome(Truncated(pluginOrder), table, Protocols(hostOrder).value, hosts, lookup);
      ScenariosSoloKeys(Truncated(pluginOrder), table, Protocols(hostOrder).value, hosts, lookup);
    }
  }

  /**
    How the solo scan makes a resolution fail: `NoCompatiblePair` exactly
    when no adjacent pair of the truncated list shares a protocol and every
    lookup succeeded; a lookup error exactly when a lookup failed before a
    pair sharing a protocol was found, and then it is the first failing
    lookup's error.
  */
  lemma ResolveScanErrors(table: PluginTable, pluginOrder: seq<string>,
                          hosts: HostTable, hostOrder: seq<string>, lookup: HostLookup)
    requires Runnable(Ok(table), pluginOrder, Ok(hosts), hostOrder)
    requires forall k :: k in hosts ==> Atoi(k).Some?
    ensures forall v :: v in Truncated(pluginOrder) ==> v in table
    ensures var o := Resolve(Ok(table), pluginOrder, Ok(hosts), hostOrder, lookup);
      var vs := Truncated(pluginOrder);
      && (o.result == Err(NoCompatiblePair) <==> |vs| > 0 && NoPairFrom(vs, table, lookup, 0))
      && (o.result.Err? ==> o.result.error == NoCompatiblePair || o.result.error.LookupFailed?)
      && ((exists k :: ScanReaches(vs, table, lookup, 0, k) && lookup(table[vs[k]]).Err?) ==>
            o.result.Err? && o.result.error.LookupFailed?)
      && (o.result.Err? && o.result.error.LookupFailed? ==>
            exists k :: ScanReaches(vs, table, lookup, 0, k) && lookup(table[vs[k]]) == Err(o.result.error.msg))
  {
    AllKeysParse(hosts, hostOrder);
    ResolveSteps(table, pluginOrder, hosts, hostOrder, lookup);
    ScenariosOutcome(Truncated(pluginOrder), table, Protocols(hostOrder).value, hosts, lookup);
  }

  /**
    The "latest" keys of a resolution that got past the parse: they hold the
    first version of the truncated list and the lookup's host for its
    protocol exactly when the first pair's protocols differ and that lookup
    succeeds; otherwise neither key is written.
  */
  lemma ResolveLatest(table: PluginTable, pluginOrder: seq<string>,
                      hosts: HostTable, hostOrder: seq<string>, lookup: HostLookup)
    requires Runnable(Ok(table), pluginOrder, Ok(hosts), hostOrder)
    requires forall k :: k in hosts ==> Atoi(k).Some?
    ensures forall v :: v in Truncated(pluginOrder) ==> v in table
    ensures var o := Resolve(Ok(table), pluginOrder, Ok(hosts), hostOrder, lookup);
      var vs := Truncated(pluginOrder);
      && o.cache.Some?
      && if |vs| > 1 && table[vs[0]] != table[vs[1]] && lookup(table[vs[0]]).Ok? then
           && LatestEVM2Avago in o.cache.value && o.cache.value[LatestEVM2Avago] == vs[0]
           && LatestAvago2EVM in o.cache.value && Ok(o.cache.value[LatestAvago2EVM]) == lookup(table[vs[0]])
         else
           LatestEVM2Avago !in o.cache.value && LatestAvago2EVM !in o.cache.value
  {
    AllKeysParse(hosts, hostOrder);
    ResolveSteps(table, pluginOrder, hosts, hostOrder, lookup);
    TruncationDropsGreatest(table, pluginOrder);
    var vs := Truncated(pluginOrder);
    if |vs| > 1 {
      assert LexLe(vs[1], vs[0]) && vs[0] != vs[1];
    }
    ScenariosLatest(vs, table, Protocols(hostOrder).value, hosts, lookup);
  }

  /**
    The version truncation drops, the greatest in string order, is never
    chosen: whatever the call returns or leaves in the memo, the solo pair,
    the "latest" plugin key and the multi-host plugin key, when written, hold
    versions of the truncated list, which does not contain it.
  */
  lemma ResolveNeverPicksGreatest(table: PluginTable, pluginOrder: seq<string>,
                                hostDoc: Result<HostTable, string>, hostOrder: seq<string>,
                                lookup: HostLookup)
    requires Runnable(Ok(table), pluginOrder, hostDoc, hostOrder)
    ensures var o := Resolve(Ok(table), pluginOrder, hostDoc, hostOrder, lookup);
      var greatest := SortDesc(pluginOrder, LexLe)[0];
      o.cache.Some? ==>
        forall key :: IsPluginKey(key) && key in o.cache.value ==>
                        o.cache.value[key] in Truncated(pluginOrder) && o.cache.value[key] != greatest
  {
    TruncationDropsGreatest(table, pluginOrder);
    if hostDoc.Ok? && Protocols(hostOrder).Ok? {
      ResolveSteps(table, pluginOrder, hostDoc.value, hostOrder, lookup);
      ScenariosPluginValues(Truncated(pluginOrder), table, Protocols(hostOrder).value, hostDoc.value, lookup);
    }
  }

  // ---------------------------------------------------------------------
  // Memoization

  /**
    Two calls on one fresh memo: the first resolves its inputs; the second
    returns whatever the first left in the memo, even after a failure, and
    ignores its own inputs. Only a first call that failed before the memo
    was created lets the second resolve afresh.
  */
  method CallTwice(pluginDoc: Result<PluginTable, string>, pluginOrder: seq<string>,
                   hostDoc: Result<HostTable, string>, hostOrder: seq<string>, lookup: HostLookup,
                   pluginDoc2: Result<PluginTable, string>, pluginOrder2: seq<string>,
                   hostDoc2: Result<HostTable, string>, hostOrder2: seq<string>, lookup2: HostLookup)
    returns (first: Result<Mapping, Error>, second: Result<Mapping, Error>)
    requires Runnable(pluginDoc, pluginOrder, hostDoc, hostOrder)
    requires Runnable(pluginDoc2, pluginOrder2, hostDoc2, hostOrder2)
    ensures first == Resolve(pluginDoc, pluginOrder, hostDoc, hostOrder, lookup).result
    ensures var memo := Resolve(pluginDoc, pluginOrder, hostDoc, hostOrder, lookup).cache;
      && (memo.Some? ==> second == Ok(memo.value))
      && (memo.None? ==> second == Resolve(pluginDoc2, pluginOrder2, hostDoc2, hostOrder2, lookup2).result)
    ensures first.Ok? ==> second == first
    ensures pluginDoc.Ok? && hostDoc.Ok? && (exists k :: k in hostDoc.value && Atoi(k).None?) ==>
              first.Err? && second == Ok(map[])
  {
    var cache := new VersionCache();
    first := cache.GetVersionMapping(pluginDoc, pluginOrder, hostDoc, hostOrder, lookup);
    second := cache.GetVersionMapping(pluginDoc2, pluginOrder2, hostDoc2, hostOrder2, lookup2);
    ResolveErrors(pluginDoc, pluginOrder, hostDoc, hostOrder, lookup);
  }
}
