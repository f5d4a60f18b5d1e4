/**
  The version-compatibility resolver of the end-to-end tests
  (`GetVersionMapping` in tests/e2e/utils/versions.go).

  Inputs are the two parsed compatibility tables:
  - the plugin table, Subnet-EVM version -> RPC protocol version;
  - the host table, protocol version written in decimal -> AvalancheGo
    versions.
  From them the resolver fills a mapping from scenario keys to versions. Each
  step of the Go function is a method here, proved against a specification
  function; `Resolve` composes the specifications, and the class
  `VersionCache` holds the package-level memo.

  Go map iteration order is unspecified: wherever the source ranges over a
  map, the model takes the order of iteration as a parameter, constrained
  only to enumerate the map's keys, so every result holds for every order.
*/
module Versions {
  import opened Wrappers
  import opened Ordering
  import opened Strconv

  /** The scenario keys (string constants of the Go package). */
  datatype Key =
    | SoloSubnetEVM1 | SoloSubnetEVM2 | SoloAvago
    | MultiAvago1 | MultiAvago2 | MultiAvagoSubnetEVM
    | OnlyAvago
    | LatestEVM2Avago | LatestAvago2EVM

  type Mapping = map<Key, string>

  /** Go's `mapping[k]`: a key never written reads as the empty string. */
  function Get(m: Mapping, k: Key): string
  {
    if k in m then m[k] else ""
  }

  datatype Error =
    | LoadFailed(msg: string)         // downloading or decoding a table failed
    | MalformedProtocol(key: string)  // strconv.Atoi rejected a host-table key
    | NoCompatiblePair                // no two adjacent plugin versions share a protocol
    | LookupFailed(msg: string)       // the latest-AvalancheGo lookup failed

  /** Subnet-EVM version -> RPC protocol version. */
  type PluginTable = map<string, int>

  /** Protocol version in decimal -> AvalancheGo versions. */
  type HostTable = map<string, seq<string>>

  /** `vm.GetLatestAvalancheGoByProtocolVersion`: protocol -> newest host release. */
  type HostLookup = int -> Result<string, string>

  /** `order` is one possible iteration order of a Go map with key set `keys`. */
  ghost predicate Enumerates<K(!new)>(order: seq<K>, keys: set<K>)
  {
    && |order| == |keys|
    && Distinct(order)
    && (forall k :: k in order <==> k in keys)
  }

  // ---------------------------------------------------------------------
  // getVersions: the plugin versions, greatest first in string order

  /**
    Collects the keys of the plugin table in iteration order into a slice of
    the table's size, then sorts it into descending string order.
  */
  method GetVersions(table: PluginTable, order: seq<string>) returns (versions: seq<string>)
    requires Enumerates(order, table.Keys)
    ensures versions == SortDesc(order, LexLe)
    ensures |versions| == |table| && (forall v :: v in versions <==> v in table)
    ensures Descending(versions, LexLe) && Distinct(versions)
  {
    assert |table| == |table.Keys| == |order|;
    var a := new string[|table|];
    var i := 0;
    while i < |order|
      invariant 0 <= i <= |order|
      invariant a[..i] == order[..i]
    {
      a[i] := order[i];
      i := i + 1;
    }
    assert a[..] == order;
    LexLeTotalOrder();
    SortDescending(a, LexLe);
    versions := a[..];
    DistinctPermutation(order, versions);
    forall v ensures v in versions <==> v in table {
      assert v in versions <==> v in multiset(versions);
      assert v in order <==> v in multiset(order);
    }
  }

  // ---------------------------------------------------------------------
  // Protocol keys: Atoi over the host-table keys, then a descending sort

  /**
    The host-table keys parsed in iteration order; the first key `Atoi`
    rejects ends the scan with its error.
  */
  function ParseKeys(keys: seq<string>): (r: Result<seq<int>, Error>)
    ensures r.Ok? ==> |r.value| == |keys|
    ensures r.Ok? ==> forall i :: 0 <= i < |keys| ==> Atoi(keys[i]) == Some(r.value[i])
    ensures r.Err? ==> exists i :: FirstRejected(keys, i) && r.error == MalformedProtocol(keys[i])
  {
    if keys == [] then Ok([])
    else
      var last := keys[|keys| - 1];
      assert forall i :: 0 <= i < |keys| - 1 ==> keys[..|keys| - 1][i] == keys[i];
      match ParseKeys(keys[..|keys| - 1])
      case Err(e) =>
        assert exists i :: FirstRejected(keys, i) && e == MalformedProtocol(keys[i]) by {
          var i :| FirstRejected(keys[..|keys| - 1], i) && e == MalformedProtocol(keys[..|keys| - 1][i]);
          assert FirstRejected(keys, i);
        }
        Err(e)
      case Ok(ns) =>
        match Atoi(last)
        case None => assert FirstRejected(keys, |keys| - 1); Err(MalformedProtocol(last))
        case Some(n) => Ok(ns + [n])
  }

  /** `keys[i]` is the first key in iteration order that `Atoi` rejects. */
  ghost predicate FirstRejected(keys: seq<string>, i: int)
  {
    && 0 <= i < |keys|
    && Atoi(keys[i]).None?
    && (forall j :: 0 <= j < i ==> Atoi(keys[j]).Some?)
  }

  /** The protocol versions in descending integer order, or the parse error. */
  function Protocols(keys: seq<string>): Result<seq<int>, Error>
  {
    match ParseKeys(keys)
    case Err(e) => Err(e)
    case Ok(ns) => Ok(SortDesc(ns, IntLe))
  }

  lemma {:induction false} ParseKeysErrorSticks(keys: seq<string>, i: nat)
    requires i <= |keys| && ParseKeys(keys[..i]).Err?
    ensures ParseKeys(keys) == ParseKeys(keys[..i])
    decreases |keys| - i
  {
    if i < |keys| {
      assert keys[..i + 1][..i] == keys[..i];
      ParseKeysErrorSticks(keys, i + 1);
    } else {
      assert keys[..i] == keys;
    }
  }

  /**
    Parses every key of the host table (in iteration order) into `rpcs`,
    returning at the first key `Atoi` rejects, then sorts `rpcs` into
    descending order.
  */
  method ProtocolKeys(keys: seq<string>) returns (r: Result<seq<int>, Error>)
    ensures r == Protocols(keys)
    ensures r.Ok? ==> Descending(r.value, IntLe)
    ensures r.Ok? <==> forall k :: k in keys ==> Atoi(k).Some?
  {
    var rpcs: seq<int> := [];
    var i := 0;
    while i < |keys|
      invariant 0 <= i <= |keys|
      invariant ParseKeys(keys[..i]) == Ok(rpcs)
    {
      assert keys[..i + 1][..i] == keys[..i];
      var kint := Atoi(keys[i]);
      if kint.None? {
        ParseKeysErrorSticks(keys, i + 1);
        return Err(MalformedProtocol(keys[i]));
      }
      rpcs := rpcs + [kint.value];
      i := i + 1;
    }
    assert keys[..i] == keys;
    var a := new int[|rpcs|](j requires 0 <= j < |rpcs| => rpcs[j]);
    assert a[..] == rpcs;
    IntLeTotalOrder();
    SortDescending(a, IntLe);
    r := Ok(a[..]);
  }

  // ---------------------------------------------------------------------
  // The multi-host scan

  /** Go's `avagoCompat[strconv.Itoa(p)]`: a missing key reads as an empty list. */
  function HostsFor(hosts: HostTable, p: int): seq<string>
  {
    var k := Itoa(p);
    if k in hosts then hosts[k] else []
  }

  /** The first protocol, in scan order, that more than one host release supports. */
  function MultiProtocol(rpcs: seq<int>, hosts: HostTable): (r: Option<int>)
    ensures r.None? <==> forall i :: 0 <= i < |rpcs| ==> |HostsFor(hosts, rpcs[i])| <= 1
    ensures r.Some? ==> |HostsFor(hosts, r.value)| > 1
    ensures r.Some? ==> exists i :: 0 <= i < |rpcs| && rpcs[i] == r.value
                          && forall j :: 0 <= j < i ==> |HostsFor(hosts, rpcs[j])| <= 1
  {
    if rpcs == [] then None
    else if |HostsFor(hosts, rpcs[0])| > 1 then Some(rpcs[0])
    else
      var r := MultiProtocol(rpcs[1..], hosts);
      assert forall i :: 1 <= i < |rpcs| ==> rpcs[i] == rpcs[1..][i - 1];
      r
  }

  /** The first plugin version, in list order, that speaks protocol `p`. */
  function FirstOfProtocol(versions: seq<string>, table: PluginTable, p: int): (r: Option<string>)
    requires forall v :: v in versions ==> v in table
    ensures r.None? <==> forall i :: 0 <= i < |versions| ==> table[versions[i]] != p
    ensures r.Some? ==> exists i :: 0 <= i < |versions| && versions[i] == r.value && table[r.value] == p
                          && forall j :: 0 <= j < i ==> table[versions[j]] != p
  {
    if versions == [] then None
    else if table[versions[0]] == p then Some(versions[0])
    else
      var r := FirstOfProtocol(versions[1..], table, p);
      assert forall i :: 1 <= i < |versions| ==> versions[i] == versions[1..][i - 1];
      r
  }

  /** What the multi-host scan writes into `m`. */
  function MultiHost(rpcs: seq<int>, hosts: HostTable, versions: seq<string>, table: PluginTable,
                     m: Mapping): Mapping
    requires forall v :: v in versions ==> v in table
  {
    match MultiProtocol(rpcs, hosts)
    case None => m
    case Some(p) =>
      var vers := SortDesc(HostsFor(hosts, p), LexLe);
      var m1 := m[MultiAvago1 := vers[0]][MultiAvago2 := vers[1]];
      match FirstOfProtocol(versions, table, p)
      case None => m1
      case Some(v) => m1[MultiAvagoSubnetEVM := v]
  }

  /** Sorts a copy of `xs` into descending string order. */
  method SortStrings(xs: seq<string>) returns (sorted: seq<string>)
    ensures sorted == SortDesc(xs, LexLe)
    ensures Descending(sorted, LexLe) && multiset(sorted) == multiset(xs)
  {
    var a := new string[|xs|](k requires 0 <= k < |xs| => xs[k]);
    assert a[..] == xs;
    LexLeTotalOrder();
    SortDescending(a, LexLe);
    sorted := a[..];
  }

  /** Walks the plugin versions in order and returns the first that speaks protocol `p`. */
  method FindFirstOfProtocol(versions: seq<string>, table: PluginTable, p: int) returns (r: Option<string>)
    requires forall v :: v in versions ==> v in table
    ensures r == FirstOfProtocol(versions, table, p)
  {
    var j := 0;
    while j < |versions|
      invariant 0 <= j <= |versions|
      invariant FirstOfProtocol(versions[j..], table, p) == FirstOfProtocol(versions, table, p)
    {
      if table[versions[j]] == p {
        return Some(versions[j]);
      }
      assert versions[j..][1..] == versions[j + 1..];
      j := j + 1;
    }
    return None;
  }

  /**
    A scan that reaches protocol `p == rpcs[i]` with more than one host has
    found its protocol: the multi-host keys come from the sorted hosts of `p`
    and the first plugin version of `p`.
  */
  lemma MultiHostFound(rpcs: seq<int>, hosts: HostTable, versions: seq<string>, table: PluginTable,
                       m: Mapping, i: int, sorted: seq<string>, first: Option<string>)
    requires forall v :: v in versions ==> v in table
    requires 0 <= i < |rpcs| && |HostsFor(hosts, rpcs[i])| > 1
    requires MultiProtocol(rpcs[i..], hosts) == MultiProtocol(rpcs, hosts)
    requires sorted == SortDesc(HostsFor(hosts, rpcs[i]), LexLe)
    requires first == FirstOfProtocol(versions, table, rpcs[i])
    ensures |sorted| > 1
    ensures var m1 := m[MultiAvago1 := sorted[0]][MultiAvago2 := sorted[1]];
      MultiHost(rpcs, hosts, versions, table, m) == if first.Some? then m1[MultiAvagoSubnetEVM := first.value] else m1
  {
    assert rpcs[i..][0] == rpcs[i];
    assert MultiProtocol(rpcs, hosts) == Some(rpcs[i]);
  }

  /** A protocol with at most one host does not stop the scan. */
  lemma MultiProtocolSkip(rpcs: seq<int>, hosts: HostTable, i: int)
    requires 0 <= i < |rpcs| && |HostsFor(hosts, rpcs[i])| <= 1
    ensures MultiProtocol(rpcs[i..], hosts) == MultiProtocol(rpcs[i + 1..], hosts)
  {
    assert rpcs[i..][0] == rpcs[i] && rpcs[i..][1..] == rpcs[i + 1..];
  }

  /**
    Walks the protocols in order; at the first one with more than one host,
    sorts its hosts into descending string order, records the top two, and
    records the first plugin version with that protocol, if any.
  */
  method MultiHostScan(rpcs: seq<int>, hosts: HostTable, versions: seq<string>, table: PluginTable,
                       m: Mapping) returns (m': Mapping)
    requires forall v :: v in versions ==> v in table
    ensures m' == MultiHost(rpcs, hosts, versions, table, m)
  {
    m' := m;
    var i := 0;
    while i < |rpcs|
      invariant 0 <= i <= |rpcs|
      invariant MultiProtocol(rpcs[i..], hosts) == MultiProtocol(rpcs, hosts)
      invariant m' == m
    {
      var v := rpcs[i];
      var vers := HostsFor(hosts, v);
      if |vers| > 1 {
        var sorted := SortStrings(vers);
        m' := m'[MultiAvago1 := sorted[0]][MultiAvago2 := sorted[1]];
        var first := FindFirstOfProtocol(versions, table, v);
        MultiHostFound(rpcs, hosts, versions, table, m, i, sorted, first);
        if first.Some? {
          m' := m'[MultiAvagoSubnetEVM := first.value];
        }
        return;
      }
      MultiProtocolSkip(rpcs, hosts, i);
      i := i + 1;
    }
  }

  // ---------------------------------------------------------------------
  // The solo scan over adjacent plugin versions

  /**
    The scan from pair `i` on, as the loop performs it: at the last element
    it fails; otherwise it looks up the newest host for the first version's
    protocol (failing if the lookup fails), records a solo pair and stops if
    both versions share a protocol, and otherwise records the "latest" keys
    if they still read as empty and moves on. Returns the mapping as left by
    the scan and the error, if any.
  */
  function SoloFrom(vs: seq<string>, table: PluginTable, lookup: HostLookup, m: Mapping, i: nat)
    : (Mapping, Option<Error>)
    requires i <= |vs|
    requires forall v :: v in vs ==> v in table
    decreases |vs| - i
  {
    if i == |vs| then (m, None)
    else if i + 1 == |vs| then (m, Some(NoCompatiblePair))
    else
      var first, second := vs[i], vs[i + 1];
      match lookup(table[first])
      case Err(msg) => (m, Some(LookupFailed(msg)))
      case Ok(soloAvago) =>
        if table[first] == table[second] then
          (m[SoloSubnetEVM1 := first][SoloSubnetEVM2 := second][SoloAvago := soloAvago], None)
        else if Get(m, LatestEVM2Avago) == "" then
          SoloFrom(vs, table, lookup, m[LatestEVM2Avago := first][LatestAvago2EVM := soloAvago], i + 1)
        else
          SoloFrom(vs, table, lookup, m, i + 1)
  }

  /** The loop over adjacent pairs of the truncated plugin-version list. */
  method SoloScan(vs: seq<string>, table: PluginTable, lookup: HostLookup, m: Mapping)
    returns (m': Mapping, err: Option<Error>)
    requires forall v :: v in vs ==> v in table
    ensures (m', err) == SoloFrom(vs, table, lookup, m, 0)
  {
    m', err := m, None;
    var i := 0;
    while i < |vs|
      invariant 0 <= i <= |vs|
      invariant SoloFrom(vs, table, lookup, m', i) == SoloFrom(vs, table, lookup, m, 0)
    {
      if i + 1 == |vs| {
        err := Some(NoCompatiblePair);
        return;
      }
      var first := vs[i];
      var second := vs[i + 1];
      var soloAvago := lookup(table[first]);
      if soloAvago.Err? {
        err := Some(LookupFailed(soloAvago.error));
        return;
      }
      if table[first] == table[second] {
        m' := m'[SoloSubnetEVM1 := first][SoloSubnetEVM2 := second][SoloAvago := soloAvago.value];
        break;
      } else if Get(m', LatestEVM2Avago) == "" {
        m' := m'[LatestEVM2Avago := first][LatestAvago2EVM := soloAvago.value];
      }
      i := i + 1;
    }
  }

  // ---------------------------------------------------------------------
  // The whole resolution

  /**
    The scenarios filled once both tables are read and the protocols parsed:
    the multi-host scan into an empty mapping, the host-only scenario, then
    the solo scan. Returns the mapping as far as it got, and the error, if any.
  */
  function Scenarios(versions: seq<string>, table: PluginTable, rpcs: seq<int>, hosts: HostTable,
                     lookup: HostLookup): (Mapping, Option<Error>)
    requires forall v :: v in versions ==> v in table
  {
    var multi := MultiHost(rpcs, hosts, versions, table, map[]);
    SoloFrom(versions, table, lookup, multi[OnlyAvago := "latest"], 0)
  }

  /** What one uncached call returns, and what it leaves in the memo. */
  datatype Outcome = Outcome(result: Result<Mapping, Error>, cache: Option<Mapping>)

  /** The inputs the resolver can run on without panicking. */
  ghost predicate Runnable(pluginDoc: Result<PluginTable, string>, pluginOrder: seq<string>,
                           hostDoc: Result<HostTable, string>, hostOrder: seq<string>)
  {
    && (pluginDoc.Ok? ==> |pluginDoc.value| > 0 && Enumerates(pluginOrder, pluginDoc.value.Keys))
    && (hostDoc.Ok? ==> Enumerates(hostOrder, hostDoc.value.Keys))
  }

  /** The plugin versions the scenarios may use: all but the greatest in string order. */
  function Truncated(pluginOrder: seq<string>): seq<string>
    requires |pluginOrder| > 0
  {
    SortDesc(pluginOrder, LexLe)[1..]
  }

  /**
    One uncached call of `GetVersionMapping`. A failed download leaves no
    memo; every later failure leaves the mapping as far as it got.
  */
  function Resolve(pluginDoc: Result<PluginTable, string>, pluginOrder: seq<string>,
                   hostDoc: Result<HostTable, string>, hostOrder: seq<string>,
                   lookup: HostLookup): Outcome
    requires Runnable(pluginDoc, pluginOrder, hostDoc, hostOrder)
  {
    match pluginDoc
    case Err(msg) => Outcome(Err(LoadFailed(msg)), None)
    case Ok(table) =>
      var versions := Truncated(pluginOrder);
      assert forall v :: v in versions ==> v in multiset(pluginOrder);
      match hostDoc
      case Err(msg) => Outcome(Err(LoadFailed(msg)), None)
      case Ok(hosts) =>
        match Protocols(hostOrder)
        case Err(e) => Outcome(Err(e), Some(map[]))
        case Ok(rpcs) =>
          var (m, err) := Scenarios(versions, table, rpcs, hosts, lookup);
          Outcome(if err.Some? then Err(err.value) else Ok(m), Some(m))
  }

  /** The package-level memo of `GetVersionMapping` (the mutex is not modelled). */
  class VersionCache {
    /** The package-level `mapping`; `None` stands for Go's nil map. */
    var mapping: Option<Mapping>

    constructor ()
      ensures mapping == None
    {
      mapping := None;
    }

    /**
      Returns the memoized mapping if there is one; otherwise resolves the
      tables, storing the mapping in the memo as soon as it is created, so
      that a call failing after that point still leaves it behind.
    */
    method GetVersionMapping(pluginDoc: Result<PluginTable, string>, pluginOrder: seq<string>,
                             hostDoc: Result<HostTable, string>, hostOrder: seq<string>,
                             lookup: HostLookup) returns (r: Result<Mapping, Error>)
      requires mapping.None? ==> Runnable(pluginDoc, pluginOrder, hostDoc, hostOrder)
      modifies this
      ensures old(mapping).Some? ==> r == Ok(old(mapping).value) && mapping == old(mapping)
      ensures old(mapping).None? ==>
                r == Resolve(pluginDoc, pluginOrder, hostDoc, hostOrder, lookup).result
                && mapping == Resolve(pluginDoc, pluginOrder, hostDoc, hostOrder, lookup).cache
    {
      if mapping.Some? {
        return Ok(mapping.value);
      }
      if pluginDoc.Err? {
        return Err(LoadFailed(pluginDoc.error));
      }
      var table := pluginDoc.value;
      var versions := GetVersions(table, pluginOrder);
      versions := versions[1..];
      if hostDoc.Err? {
        return Err(LoadFailed(hostDoc.error));
      }
      var hosts := hostDoc.value;
      mapping := Some(map[]);
      var rpcs := ProtocolKeys(hostOrder);
      if rpcs.Err? {
        return Err(rpcs.error);
      }
      var m := MultiHostScan(rpcs.value, hosts, versions, table, map[]);
      m := m[OnlyAvago := "latest"];
      var err;
      m, err := SoloScan(versions, table, lookup, m);
      mapping := Some(m);
      if err.Some? {
        return Err(err.value);
      }
      return Ok(m);
    }
  }
}
