/**
 * The program's selection run without its I/O: the addresses extracted
 * from the scan results are grouped by subnet, every group is capped, the
 * remaining addresses are probed, the groups are narrowed to the addresses
 * whose latency lies in the configured window, and one address per group
 * is drawn.
 */
module Pipeline {
  import opened Wrappers
  import opened IpProcessor
  import NetworkAnalyzer

  /** The default lower latency bound of the configuration, in ms. */
  const Threshold1: int := 50
  /** The default upper latency bound of the configuration, in ms. */
  const Threshold2: int := 100

  /** The members of the groups listed in `order`, one group after the other. */
  function ConcatGroups(groups: Groups, order: seq<string>): seq<string>
    requires forall k :: k in order ==> k in groups
  {
    if order == [] then [] else ConcatGroups(groups, order[..|order| - 1]) + groups[order[|order| - 1]]
  }

  /** An address is in the concatenation iff it is in one of the listed groups. */
  lemma {:induction false} ConcatGroupsMembers(groups: Groups, order: seq<string>)
    requires forall k :: k in order ==> k in groups
    ensures forall ip :: ip in ConcatGroups(groups, order) <==> exists k :: k in order && ip in groups[k]
  {
    if order != [] {
      var front := order[..|order| - 1];
      var last := order[|order| - 1];
      ConcatGroupsMembers(groups, front);
      assert ConcatGroups(groups, order) == ConcatGroups(groups, front) + groups[last];
      forall ip | ip in ConcatGroups(groups, order)
        ensures exists k :: k in order && ip in groups[k]
      {
        if ip !in groups[last] {
          var k :| k in front && ip in groups[k];
          assert k in order;
        }
      }
      forall ip | exists k :: k in order && ip in groups[k]
        ensures ip in ConcatGroups(groups, order)
      {
        var k :| k in order && ip in groups[k];
        if k != last {
          assert k in front;
        }
      }
    }
  }

  /**
   * When the listed keys are distinct and `ip` belongs to the group of `k`
   * alone, it occurs in the concatenation exactly as often as in that group.
   */
  lemma {:induction false} ConcatGroupsCount(groups: Groups, order: seq<string>, k: string, ip: string)
    requires forall j :: j in order ==> j in groups
    requires NetworkAnalyzer.Distinct(order) && k in order
    requires forall j :: j in order && j != k ==> ip !in groups[j]
    ensures multiset(ConcatGroups(groups, order))[ip] == multiset(groups[k])[ip]
  {
    var front := order[..|order| - 1];
    var last := order[|order| - 1];
    assert ConcatGroups(groups, order) == ConcatGroups(groups, front) + groups[last];
    if last == k {
      assert k !in front;
      ConcatGroupsAbsent(groups, front, ip);
    } else {
      assert k in front;
      assert NetworkAnalyzer.Distinct(front) by {
        forall i, j | 0 <= i < j < |front|
          ensures front[i] != front[j]
        {
          assert order[i] == front[i] && order[j] == front[j];
        }
      }
      ConcatGroupsCount(groups, front, k, ip);
      assert ip !in groups[last];
      assert multiset(groups[last])[ip] == 0;
    }
  }

  /** An address in none of the listed groups does not occur in their concatenation. */
  lemma ConcatGroupsAbsent(groups: Groups, order: seq<string>, ip: string)
    requires forall j :: j in order ==> j in groups
    requires forall j :: j in order ==> ip !in groups[j]
    ensures multiset(ConcatGroups(groups, order))[ip] == 0
  {
    ConcatGroupsMembers(groups, order);
  }

  /**
   * `groups.SelectMany(g => g.Value)`: the members of every group, one
   * group after the other. The dictionary's enumeration order is not
   * specified, so the order of the groups is chosen nondeterministically;
   * `order` is that order, every key exactly once.
   */
  method Flatten(groups: Groups) returns (ips: seq<string>, ghost order: seq<string>)
    ensures NetworkAnalyzer.Distinct(order) && forall k :: k in order <==> k in groups
    ensures ips == ConcatGroups(groups, order)
    ensures forall ip :: ip in ips <==> exists k :: k in groups && ip in groups[k]
  {
    ips := [];
    order := [];
    var pending := groups.Keys;
    while pending != {}
      invariant pending <= groups.Keys
      invariant forall k :: k in order ==> k in groups && k !in pending
      invariant forall k :: k in groups ==> k in order || k in pending
      invariant NetworkAnalyzer.Distinct(order)
      invariant ips == ConcatGroups(groups, order)
      decreases pending
    {
      var k :| k in pending;
      assert (order + [k])[..|order|] == order;
      ips := ips + groups[k];
      order := order + [k];
      pending := pending - {k};
    }
    ConcatGroupsMembers(groups, order);
  }

  /** A member of the capped group of key `k` is an input address whose key is `k`. */
  lemma CappedMember(addresses: seq<string>, k: string, sample: seq<string>, ip: string)
    requires k in GroupBySubnet(addresses)
    requires IsCapped(GroupBySubnet(addresses)[k], sample, DefaultMaxSize)
    requires ip in sample
    ensures ip in addresses && SubnetKey(ip) == k
  {
    var group := GroupBySubnet(addresses)[k];
    CappedSize(group, sample, DefaultMaxSize);
    GroupBySubnetGroups(addresses);
    assert group == Members(addresses, k);
  }

  /**
   * With the keys of the capped groups listed once each, an address occurs
   * in their concatenation at most as often as in the input: only its own
   * subnet's group can hold it, and capping only drops members.
   */
  lemma ProbedAtMostListed(addresses: seq<string>, limited: Groups, order: seq<string>, ip: string)
    requires limited.Keys == GroupBySubnet(addresses).Keys
    requires forall k :: k in limited ==> IsCapped(GroupBySubnet(addresses)[k], limited[k], DefaultMaxSize)
    requires forall k :: k in order ==> k in limited
    requires NetworkAnalyzer.Distinct(order)
    ensures multiset(ConcatGroups(limited, order))[ip] <= multiset(addresses)[ip]
  {
    var key := SubnetKey(ip);
    forall j | j in order && j != key
      ensures ip !in limited[j]
    {
      if ip in limited[j] {
        CappedMember(addresses, j, limited[j], ip);
      }
    }
    if key in order {
      ConcatGroupsCount(limited, order, key, ip);
      var group := GroupBySubnet(addresses)[key];
      GroupBySubnetGroups(addresses);
      MembersCount(addresses, key, ip);
      assert multiset(limited[key])[ip] <= multiset(group)[ip];
    } else {
      ConcatGroupsAbsent(limited, order, ip);
    }
  }

  /**
   * One run of the program on the extracted addresses, with the latency
   * window `[threshold1, threshold2]` read from the configuration and the
   * effective defaults (groups of at most 5, 3 probes per address).
   * `probed` is the list of addresses sent to the analyser. The selection
   * cannot fail, since filtering drops every group it empties. Each
   * selected address is an input address, is filed under its own subnet key
   * and has a measured latency within the window. The latencies are those
   * the pinger's answers give the probed addresses, so only input addresses
   * are measured. Every probed address is pinged 3 times per listing, and
   * no address is listed more often than in the input.
   */
  method SelectCleanIps(addresses: seq<string>, pinger: NetworkAnalyzer.Pinger,
                        threshold1: int := Threshold1, threshold2: int := Threshold2)
    returns (latencies: map<string, real>, selected: Result<map<string, string>, SelectError>, probed: seq<string>)
    modifies pinger
    ensures selected.Success?
    ensures forall k :: k in selected.value ==>
              && selected.value[k] in addresses
              && SubnetKey(selected.value[k]) == k
              && WithinThresholds(selected.value[k], latencies, threshold1, threshold2)
    ensures latencies == NetworkAnalyzer.Measured(probed, pinger.answer, |old(pinger.sent)|, 3)
    ensures forall ip :: ip in latencies ==> ip in probed
    ensures forall ip :: multiset(probed)[ip] <= multiset(addresses)[ip]
    ensures pinger.sent == old(pinger.sent) + NetworkAnalyzer.Repeated(probed, 3)
    ensures forall ip :: multiset(pinger.sent)[ip] == multiset(old(pinger.sent))[ip] + multiset(probed)[ip] * 3
  {
    var grouped := GroupBySubnet(addresses);
    var limited := LimitGroupSize(grouped);
    ghost var order;
    probed, order := Flatten(limited);
    latencies := NetworkAnalyzer.PingAddresses(probed, pinger);
    var filtered := FilterByThresholds(limited, latencies, threshold1, threshold2);
    selected := SelectRandomIps(filtered);

    forall k | k in selected.value
      ensures selected.value[k] in addresses && SubnetKey(selected.value[k]) == k
      ensures WithinThresholds(selected.value[k], latencies, threshold1, threshold2)
    {
      var ip := selected.value[k];
      assert ip in Survivors(limited[k], latencies, threshold1, threshold2);
      CappedMember(addresses, k, limited[k], ip);
    }
    forall ip | ip in latencies
      ensures ip in probed
    {
      NetworkAnalyzer.MeasuredOnlyProbed(probed, pinger.answer, |old(pinger.sent)|,
                                         NetworkAnalyzer.Attempts(NetworkAnalyzer.DefaultAttempts), ip);
    }
    forall ip
      ensures multiset(probed)[ip] <= multiset(addresses)[ip]
    {
      ProbedAtMostListed(addresses, limited, order, ip);
    }
    forall ip
      ensures multiset(pinger.sent)[ip] == multiset(old(pinger.sent))[ip] + multiset(probed)[ip] * 3
    {
      NetworkAnalyzer.RepeatedCount(probed, 3, ip);
    }
  }
}
