/**
 * The selection steps of the IP processor: grouping addresses by their first
 * dotted component, capping every group with a random sample, keeping the
 * addresses whose measured latency lies in an inclusive window, and drawing
 * one representative per group.
 *
 * Dictionaries are maps from the subnet key to the ordered list of members.
 * The processor's random generator is modelled as nondeterministic choice:
 * a method that draws says which values it may return, never how likely
 * each one is.
 */
module IpProcessor {
  import opened Wrappers

  /** Subnet key -> the addresses of that subnet, in the order they were met. */
  type Groups = map<string, seq<string>>

  /**
   * The group-size cap that takes effect. The concrete processor declares 5;
   * the 20 declared on its interface is never used, because the program
   * calls through the concrete type.
   */
  const DefaultMaxSize: int := 5

  // ---------------------------------------------------------------------
  // Order-preserving filter (LINQ Where), shared by grouping and filtering
  // ---------------------------------------------------------------------

  /** The elements of `s` that satisfy `p`, in their original order. */
  function Filter(s: seq<string>, p: string -> bool): (r: seq<string>)
    ensures |r| <= |s|
    ensures forall x :: x in r <==> x in s && p(x)
  {
    if s == [] then [] else (if p(s[0]) then [s[0]] else []) + Filter(s[1..], p)
  }

  /** Every element that passes is kept as often as it occurs; the others are dropped. */
  lemma {:induction false} FilterCount(s: seq<string>, p: string -> bool, x: string)
    ensures multiset(Filter(s, p))[x] == if p(x) then multiset(s)[x] else 0
  {
    if s != [] {
      assert s == [s[0]] + s[1..];
      FilterCount(s[1..], p, x);
    }
  }

  /** Filtering distributes over concatenation: survivors keep their relative order. */
  lemma {:induction false} FilterConcat(a: seq<string>, b: seq<string>, p: string -> bool)
    ensures Filter(a + b, p) == Filter(a, p) + Filter(b, p)
  {
    if a == [] {
      assert a + b == b;
    } else {
      calc {
        Filter(a + b, p);
        (if p(a[0]) then [a[0]] else []) + Filter((a + b)[1..], p);
        { assert (a + b)[1..] == a[1..] + b; FilterConcat(a[1..], b, p); }
        (if p(a[0]) then [a[0]] else []) + (Filter(a[1..], p) + Filter(b, p));
        Filter(a, p) + Filter(b, p);
      }
    }
  }

  // ---------------------------------------------------------------------
  // GroupBySubnet
  // ---------------------------------------------------------------------

  /**
   * The grouping key of an address: the text before its first '.', or the
   * whole address when it has no '.' (as for an IPv6 literal such as "::1").
   */
  function SubnetKey(ip: string): (k: string)
    ensures k <= ip
    ensures '.' !in k
    ensures |k| < |ip| ==> ip[|k|] == '.'
  {
    if ip == [] || ip[0] == '.' then [] else [ip[0]] + SubnetKey(ip[1..])
  }

  /** The three properties of SubnetKey's contract determine the key. */
  lemma {:induction false} SubnetKeyUnique(ip: string, k: string)
    requires k <= ip && '.' !in k
    requires |k| < |ip| ==> ip[|k|] == '.'
    ensures SubnetKey(ip) == k
  {
    if k != [] {
      assert k[0] in k;
      assert k == [k[0]] + k[1..];
      SubnetKeyUnique(ip[1..], k[1..]);
    }
  }

  /** An address without a '.' is its own key. */
  lemma UndottedIsOwnKey(ip: string)
    requires '.' !in ip
    ensures SubnetKey(ip) == ip
  {
    SubnetKeyUnique(ip, ip);
  }

  /** The members of `ips` whose key is `k`, in input order. */
  function Members(ips: seq<string>, k: string): (r: seq<string>)
    ensures forall x :: x in r <==> x in ips && SubnetKey(x) == k
  {
    Filter(ips, x => SubnetKey(x) == k)
  }

  /** An address with key `k` occurs among the members of `k` as often as in `ips`; any other, never. */
  lemma MembersCount(ips: seq<string>, k: string, x: string)
    ensures multiset(Members(ips, k))[x] == if SubnetKey(x) == k then multiset(ips)[x] else 0
  {
    FilterCount(ips, y => SubnetKey(y) == k, x);
  }

  /** The members of `ips + [ip]` with key `k` are those of `ips`, then `ip` when its key is `k`. */
  lemma MembersSnoc(ips: seq<string>, ip: string, k: string)
    ensures Members(ips + [ip], k) == Members(ips, k) + (if SubnetKey(ip) == k then [ip] else [])
  {
    FilterConcat(ips, [ip], x => SubnetKey(x) == k);
    assert Filter([ip], x => SubnetKey(x) == k) == (if SubnetKey(ip) == k then [ip] else []) by {
      assert [ip][1..] == [];
    }
  }

  /**
   * `g` groups `ips`: it has a key exactly for the keys some address has,
   * and each group holds the addresses of that key in input order.
   */
  ghost predicate IsGrouping(g: Groups, ips: seq<string>)
  {
    && (forall k :: k in g <==> Members(ips, k) != [])
    && (forall k :: k in g ==> g[k] == Members(ips, k))
  }

  /** Appending an address to the group of its key (created if absent) groups the longer input. */
  lemma GroupingStep(earlier: Groups, ips: seq<string>, ip: string)
    requires IsGrouping(earlier, ips)
    ensures IsGrouping(earlier[SubnetKey(ip) := (if SubnetKey(ip) in earlier then earlier[SubnetKey(ip)] else []) + [ip]],
                       ips + [ip])
  {
    var key := SubnetKey(ip);
    var g := earlier[key := (if key in earlier then earlier[key] else []) + [ip]];
    forall k ensures (k in g <==> Members(ips + [ip], k) != []) && (k in g ==> g[k] == Members(ips + [ip], k)) {
      MembersSnoc(ips, ip, k);
    }
  }

  /**
   * `GroupBy(ip => key).ToDictionary(...)`: the addresses are visited in input
   * order and each is appended to the group of its key, which is created on
   * first use.
   */
  function GroupBySubnet(ips: seq<string>): Groups
  {
    if ips == [] then map[]
    else
      var earlier := GroupBySubnet(ips[..|ips| - 1]);
      var k := SubnetKey(ips[|ips| - 1]);
      earlier[k := (if k in earlier then earlier[k] else []) + [ips[|ips| - 1]]]
  }

  /** The grouping has a group exactly for each key met, holding that key's addresses in input order. */
  lemma {:induction false} GroupBySubnetGroups(ips: seq<string>)
    ensures IsGrouping(GroupBySubnet(ips), ips)
  {
    if ips != [] {
      var prefix := ips[..|ips| - 1];
      GroupBySubnetGroups(prefix);
      assert ips == prefix + [ips[|ips| - 1]];
      GroupingStep(GroupBySubnet(prefix), prefix, ips[|ips| - 1]);
    }
  }

  /**
   * The groups are keyed by exactly the keys of the input addresses; every
   * group is non-empty and all its members share its key.
   */
  lemma GroupsShareKey(ips: seq<string>)
    ensures GroupBySubnet(ips).Keys == set ip | ip in ips :: SubnetKey(ip)
    ensures forall k :: k in GroupBySubnet(ips) ==>
              GroupBySubnet(ips)[k] != [] && forall x :: x in GroupBySubnet(ips)[k] ==> SubnetKey(x) == k
  {
    var g := GroupBySubnet(ips);
    GroupBySubnetGroups(ips);
    forall k | k in g ensures k in set ip | ip in ips :: SubnetKey(ip) {
      assert Members(ips, k)[0] in Members(ips, k);
    }
    forall k | k in set ip | ip in ips :: SubnetKey(ip) ensures k in g {
      var ip :| ip in ips && SubnetKey(ip) == k;
      assert ip in Members(ips, k);
    }
  }

  /**
   * Every input address lies in the group of its own key, as often as it
   * occurs in the input, and in no other group.
   */
  lemma AddressInOwnGroup(ips: seq<string>, ip: string)
    requires ip in ips
    ensures SubnetKey(ip) in GroupBySubnet(ips)
    ensures multiset(GroupBySubnet(ips)[SubnetKey(ip)])[ip] == multiset(ips)[ip]
    ensures forall k :: k in GroupBySubnet(ips) && k != SubnetKey(ip) ==> ip !in GroupBySubnet(ips)[k]
  {
    var k := SubnetKey(ip);
    GroupBySubnetGroups(ips);
    assert ip in Members(ips, k);
    FilterCount(ips, x => SubnetKey(x) == k, ip);
  }

  /** The number of addresses held by all groups together. */
  ghost function TotalSize(g: Groups): nat
    decreases g.Keys
  {
    if g.Keys == {} then 0
    else
      var k :| k in g;
      |g[k]| + TotalSize(g - {k})
  }

  /** TotalSize may take the groups apart starting from any key. */
  lemma {:induction false} TotalSizeRemove(g: Groups, k: string)
    requires k in g
    ensures TotalSize(g) == |g[k]| + TotalSize(g - {k})
    decreases g.Keys
  {
    var first :| first in g && TotalSize(g) == |g[first]| + TotalSize(g - {first});
    if first != k {
      TotalSizeRemove(g - {first}, k);
      TotalSizeRemove(g - {k}, first);
      assert g - {first} - {k} == g - {k} - {first};
    }
  }

  /** Grouping conserves the number of addresses, duplicates included. */
  lemma {:induction false} GroupingConservesCount(ips: seq<string>)
    ensures TotalSize(GroupBySubnet(ips)) == |ips|
  {
    if ips != [] {
      var prefix := ips[..|ips| - 1];
      var ip := ips[|ips| - 1];
      var k := SubnetKey(ip);
      var earlier := GroupBySubnet(prefix);
      var group := (if k in earlier then earlier[k] else []) + [ip];
      assert GroupBySubnet(ips) == earlier[k := group];
      GroupingConservesCount(prefix);
      AddToGroupSize(earlier, k, group);
    }
  }

  /** Replacing (or adding) one group changes the total by the difference in its size. */
  lemma AddToGroupSize(g: Groups, k: string, group: seq<string>)
    requires k in g ==> |group| == |g[k]| + 1
    requires k !in g ==> |group| == 1
    ensures TotalSize(g[k := group]) == TotalSize(g) + 1
  {
    var g' := g[k := group];
    TotalSizeRemove(g', k);
    assert g' - {k} == g - {k};
    if k in g {
      TotalSizeRemove(g, k);
    } else {
      assert g - {k} == g;
    }
  }

  /** Two addresses of subnet "10" and one of subnet "192" form two groups, in input order. */
  lemma GroupingScenario()
    ensures GroupBySubnet(["10.0.0.1", "10.0.0.2", "192.168.1.1"])
            == map["10" := ["10.0.0.1", "10.0.0.2"], "192" := ["192.168.1.1"]]
  {
    SubnetKeyUnique("10.0.0.1", "10");
    SubnetKeyUnique("10.0.0.2", "10");
    SubnetKeyUnique("192.168.1.1", "192");
    TwoSubnets("10.0.0.1", "10.0.0.2", "192.168.1.1");
    assert ["10.0.0.1"] + ["10.0.0.2"] == ["10.0.0.1", "10.0.0.2"];
    assert ["10.0.0.1"] + ["10.0.0.2"] + ["192.168.1.1"] == ["10.0.0.1", "10.0.0.2", "192.168.1.1"];
  }

  /** Two addresses of one subnet followed by one of another give two groups. */
  lemma TwoSubnets(x: string, y: string, z: string)
    requires SubnetKey(x) == SubnetKey(y) != SubnetKey(z)
    ensures GroupBySubnet([x] + [y] + [z]) == map[SubnetKey(x) := [x] + [y], SubnetKey(z) := [z]]
  {
    var kx, kz := SubnetKey(x), SubnetKey(z);
    var g2 := GroupBySubnet([x] + [y]);
    SameSubnetPair(x, y);
    assert kz !in g2;
    GroupBySubnetSnoc([x] + [y], z);
    assert GroupBySubnet([x] + [y] + [z]) == g2[kz := [] + [z]];
    assert [] + [z] == [z];
  }

  /** Two addresses of one subnet form one group, in input order. */
  lemma SameSubnetPair(x: string, y: string)
    requires SubnetKey(x) == SubnetKey(y)
    ensures GroupBySubnet([x] + [y]) == map[SubnetKey(x) := [x] + [y]]
  {
    var key := SubnetKey(x);
    assert GroupBySubnet([x]) == map[key := [x]] by {
      GroupBySubnetSnoc([], x);
      assert [] + [x] == [x];
    }
    GroupBySubnetSnoc([x], y);
    assert map[key := [x]][key := [x] + [y]] == map[key := [x] + [y]];
  }

  /** One step of the grouping: the last address joins the group of its key. */
  lemma GroupBySubnetSnoc(ips: seq<string>, ip: string)
    ensures GroupBySubnet(ips + [ip])
            == var g := GroupBySubnet(ips);
               g[SubnetKey(ip) := (if SubnetKey(ip) in g then g[SubnetKey(ip)] else []) + [ip]]
  {
    assert (ips + [ip])[..|ips|] == ips;
  }

  // ---------------------------------------------------------------------
  // LimitGroupSize
  // ---------------------------------------------------------------------

  /**
   * `sample` is what the cap leaves of `group`: the group itself when it has
   * at most `maxSize` members, and otherwise `maxSize` of its members (none
   * when `maxSize` is negative) drawn without replacement.
   */
  ghost predicate IsCapped(group: seq<string>, sample: seq<string>, maxSize: int)
  {
    if |group| <= maxSize then sample == group
    else |sample| == (if maxSize < 0 then 0 else maxSize) && multiset(sample) <= multiset(group)
  }

  /** For a non-negative cap, a capped group has min(Count, maxSize) members, all from the group. */
  lemma CappedSize(group: seq<string>, sample: seq<string>, maxSize: int)
    requires maxSize >= 0 && IsCapped(group, sample, maxSize)
    ensures |sample| == if |group| <= maxSize then |group| else maxSize
    ensures forall x :: x in sample ==> x in group
  {
    forall x | x in sample ensures x in group {
      assert multiset(sample)[x] > 0;
    }
  }

  /**
   * `OrderBy(x => random.Next())`: some ordering of `s`. The random sort keys
   * are modelled by drawing, one at a time, which remaining element comes
   * next; every ordering can be produced.
   */
  method Shuffle(s: seq<string>) returns (r: seq<string>)
    ensures multiset(r) == multiset(s)
  {
    r := [];
    var rest := s;
    while rest != []
      invariant multiset(r) + multiset(rest) == multiset(s)
      decreases |rest|
    {
      var i :| 0 <= i < |rest|;
      assert rest == rest[..i] + [rest[i]] + rest[i + 1..];
      r := r + [rest[i]];
      rest := rest[..i] + rest[i + 1..];
    }
  }

  /** `Take(n)`: the first n elements, all of them when n is larger, none when n is not positive. */
  function Take(s: seq<string>, n: int): (r: seq<string>)
    ensures |r| == if n <= 0 then 0 else if n < |s| then n else |s|
    ensures r <= s
  {
    if n <= 0 then [] else if n < |s| then s[..n] else s
  }

  /** A prefix holds no more of any element than the whole sequence. */
  lemma PrefixSubMultiset(s: seq<string>, r: seq<string>)
    requires r <= s
    ensures multiset(r) <= multiset(s)
  {
    assert s == r + s[|r|..];
  }

  /**
   * Caps every group at `maxSize` members. Groups that fit are copied
   * unchanged; a larger group is shuffled and its first `maxSize` members
   * are kept.
   */
  method LimitGroupSize(groups: Groups, maxSize: int := DefaultMaxSize) returns (result: Groups)
    ensures result.Keys == groups.Keys
    ensures forall k :: k in groups ==> IsCapped(groups[k], result[k], maxSize)
  {
    result := map[];
    var pending := groups.Keys;
    while pending != {}
      invariant pending <= groups.Keys
      invariant result.Keys == groups.Keys - pending
      invariant forall k :: k in result ==> IsCapped(groups[k], result[k], maxSize)
      decreases pending
    {
      var k :| k in pending;
      var ips := groups[k];
      if |ips| > maxSize {
        var shuffled := Shuffle(ips);
        ips := Take(shuffled, maxSize);
        PrefixSubMultiset(shuffled, ips);
      }
      result := result[k := ips];
      pending := pending - {k};
    }
  }

  // ---------------------------------------------------------------------
  // FilterByThresholds
  // ---------------------------------------------------------------------

  /**
   * An address passes the filter when it has a latency entry and
   * threshold1 <= latency <= threshold2, both ends inclusive. The integer
   * thresholds are compared with the latency as exact numbers.
   */
  predicate WithinThresholds(ip: string, pingResults: map<string, real>, threshold1: int, threshold2: int)
  {
    ip in pingResults && threshold1 as real <= pingResults[ip] <= threshold2 as real
  }

  /** The addresses of a group that pass the filter, in group order. */
  function Survivors(ips: seq<string>, pingResults: map<string, real>, threshold1: int, threshold2: int): (r: seq<string>)
    ensures forall x :: x in r <==> x in ips && WithinThresholds(x, pingResults, threshold1, threshold2)
  {
    Filter(ips, x => WithinThresholds(x, pingResults, threshold1, threshold2))
  }

  /** Latencies exactly on either threshold pass; latencies outside the window do not. */
  lemma ThresholdsInclusive(ip: string, pingResults: map<string, real>, threshold1: int, threshold2: int)
    requires ip in pingResults
    ensures pingResults[ip] == threshold1 as real && threshold1 <= threshold2
            ==> Survivors([ip], pingResults, threshold1, threshold2) == [ip]
    ensures pingResults[ip] == threshold2 as real && threshold1 <= threshold2
            ==> Survivors([ip], pingResults, threshold1, threshold2) == [ip]
    ensures pingResults[ip] < threshold1 as real || pingResults[ip] > threshold2 as real
            ==> Survivors([ip], pingResults, threshold1, threshold2) == []
  {
    assert [ip][1..] == [];
  }

  /**
   * With latencies 60, 150 and 80 ms and the window [50, 100], the subnet
   * "10" keeps only its first address and the subnet "192" keeps its one.
   */
  lemma ThresholdScenario()
    ensures Survivors(["10.0.0.1", "10.0.0.2"], map["10.0.0.1" := 60.0, "10.0.0.2" := 150.0, "192.168.1.1" := 80.0], 50, 100)
            == ["10.0.0.1"]
    ensures Survivors(["192.168.1.1"], map["10.0.0.1" := 60.0, "10.0.0.2" := 150.0, "192.168.1.1" := 80.0], 50, 100)
            == ["192.168.1.1"]
  {
    var latencies := map["10.0.0.1" := 60.0, "10.0.0.2" := 150.0, "192.168.1.1" := 80.0];
    assert latencies["10.0.0.2"] == 150.0;
    ThresholdsInclusive("10.0.0.2", latencies, 50, 100);
    FilterConcat(["10.0.0.1"], ["10.0.0.2"], x => WithinThresholds(x, latencies, 50, 100));
    assert ["10.0.0.1", "10.0.0.2"] == ["10.0.0.1"] + ["10.0.0.2"];
    assert ["10.0.0.1"][1..] == [];
    assert ["192.168.1.1"][1..] == [];
  }

  /**
   * Keeps, in every group, the addresses within the thresholds, and leaves
   * out the groups where none are left.
   */
  method FilterByThresholds(groups: Groups, pingResults: map<string, real>, threshold1: int, threshold2: int)
    returns (result: Groups)
    ensures result.Keys <= groups.Keys
    ensures forall k :: k in groups ==>
              (k in result <==> exists ip :: ip in groups[k] && WithinThresholds(ip, pingResults, threshold1, threshold2))
    ensures forall k :: k in result ==> result[k] == Survivors(groups[k], pingResults, threshold1, threshold2)
    ensures forall k :: k in result ==> result[k] != []
    ensures threshold1 > threshold2 ==> result == map[]
  {
    result := map[];
    var pending := groups.Keys;
    while pending != {}
      invariant pending <= groups.Keys
      invariant result.Keys <= groups.Keys - pending
      invariant forall k :: k in groups && k !in pending ==>
                  (k in result <==> Survivors(groups[k], pingResults, threshold1, threshold2) != [])
      invariant forall k :: k in result ==> result[k] == Survivors(groups[k], pingResults, threshold1, threshold2)
      decreases pending
    {
      var k :| k in pending;
      var filteredIps := Survivors(groups[k], pingResults, threshold1, threshold2);
      if filteredIps != [] {
        result := result[k := filteredIps];
      }
      pending := pending - {k};
    }
    forall k | k in groups
      ensures (k in result <==> exists ip :: ip in groups[k] && WithinThresholds(ip, pingResults, threshold1, threshold2))
    {
      var s := Survivors(groups[k], pingResults, threshold1, threshold2);
      if s != [] {
        assert s[0] in s;
      }
    }
  }

  // ---------------------------------------------------------------------
  // SelectRandomIps
  // ---------------------------------------------------------------------

  /** Indexing an empty group with `random.Next(0)` fails (an out-of-range index). */
  datatype SelectError = EmptyGroup(key: string)

  /** `random.Next(n)`: some index below `n`, and 0 when `n` is 0. */
  method NextBelow(n: nat) returns (i: nat)
    ensures if n == 0 then i == 0 else i < n
  {
    if n == 0 {
      i := 0;
    } else {
      i :| i < n;
    }
  }

  /**
   * Draws one member of every group. A group with no members makes the
   * indexing fail, and the whole selection fails with it.
   */
  method SelectRandomIps(groups: Groups) returns (r: Result<map<string, string>, SelectError>)
    ensures r.Success? <==> forall k :: k in groups ==> groups[k] != []
    ensures r.Failure? ==> r.error.key in groups && groups[r.error.key] == []
    ensures r.Success? ==> r.value.Keys == groups.Keys
    ensures r.Success? ==> forall k :: k in groups ==> k in r.value && r.value[k] in groups[k]
  {
    var chosen: map<string, string> := map[];
    var pending := groups.Keys;
    while pending != {}
      invariant pending <= groups.Keys
      invariant chosen.Keys == groups.Keys - pending
      invariant forall k :: k in chosen ==> chosen[k] in groups[k]
      decreases pending
    {
      var k :| k in pending;
      var members := groups[k];
      var i := NextBelow(|members|);
      if i >= |members| {
        return Failure(EmptyGroup(k));
      }
      chosen := chosen[k := members[i]];
      pending := pending - {k};
    }
    return Success(chosen);
  }
}
