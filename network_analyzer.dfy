/**
 * The latency measurement of the network analyzer. Every address gets the
 * same number of echo probes; the round-trip times of the probes answered
 * with Success are averaged, and an address none of whose probes succeeded
 * gets no entry at all.
 *
 * The network is an oracle: a Pinger answers the n-th probe it sends with
 * `answer(n)` and logs every address it probes. Latencies are exact reals.
 */
module NetworkAnalyzer {
  import Wrappers

  /** The attempt count that takes effect: 3 on the concrete analyzer (its interface says 5). */
  const DefaultAttempts: int := 3

  /** The status of an echo reply; only Success carries a usable round-trip time. */
  datatype IpStatus = Success | TimedOut | DestinationUnreachable | OtherStatus

  /** What one probe gives: a reply (status, round-trip time in ms) or a ping exception. */
  datatype ProbeOutcome = Reply(status: IpStatus, roundtripTime: nat) | PingFailed

  /** The echo sender: answers probes from a fixed script and logs each probed address. */
  class Pinger {
    /** The outcome of the n-th probe this pinger sends. */
    const answer: nat -> ProbeOutcome
    /** The addresses probed so far, one entry per probe, in order. */
    var sent: seq<string>

    constructor (answer: nat -> ProbeOutcome)
      ensures this.answer == answer && sent == []
    {
      this.answer := answer;
      sent := [];
    }

    /** Sends one probe to `ip`. */
    method SendPing(ip: string) returns (outcome: ProbeOutcome)
      modifies this
      ensures sent == old(sent) + [ip]
      ensures outcome == answer(|old(sent)|)
    {
      outcome := answer(|sent|);
      sent := sent + [ip];
    }
  }

  // ---------------------------------------------------------------------
  // Aggregating the probes of one address
  // ---------------------------------------------------------------------

  /** The round-trip times of the successful probes, in the order sent. */
  function SuccessfulTimes(outcomes: seq<ProbeOutcome>): (times: seq<nat>)
    ensures |times| <= |outcomes|
  {
    if outcomes == [] then []
    else
      var last := outcomes[|outcomes| - 1];
      SuccessfulTimes(outcomes[..|outcomes| - 1])
      + (if last.Reply? && last.status == Success then [last.roundtripTime] else [])
  }

  /** Exactly the probes answered with Success contribute their round-trip time. */
  lemma {:induction false} SuccessfulTimesMembers(outcomes: seq<ProbeOutcome>)
    ensures forall t: nat :: t in SuccessfulTimes(outcomes) <==> Reply(Success, t) in outcomes
  {
    if outcomes != [] {
      var init := outcomes[..|outcomes| - 1];
      assert outcomes == init + [outcomes[|outcomes| - 1]];
      SuccessfulTimesMembers(init);
    }
  }

  /** Distributivity for one more summand: (m + 1) * n == m * n + n. */
  lemma MulSucc(m: nat, n: nat)
    ensures (m + 1) * n == m * n + n
  {
  }

  /** The total of the round-trip times. */
  function Sum(xs: seq<nat>): nat
  {
    if xs == [] then 0 else Sum(xs[..|xs| - 1]) + xs[|xs| - 1]
  }

  /** The arithmetic mean, exact. */
  function Mean(xs: seq<nat>): real
    requires xs != []
  {
    Sum(xs) as real / |xs| as real
  }

  /** A sum of values each between `lo` and `hi` lies between |xs| * lo and |xs| * hi. */
  lemma {:induction false} SumBounds(xs: seq<nat>, lo: nat, hi: nat)
    requires forall t :: t in xs ==> lo <= t <= hi
    ensures |xs| * lo <= Sum(xs) <= |xs| * hi
  {
    if xs != [] {
      var init := xs[..|xs| - 1];
      assert forall t :: t in init ==> t in xs;
      assert xs[|xs| - 1] in xs;
      SumBounds(init, lo, hi);
      assert |xs| * lo == |init| * lo + lo by {
        MulSucc(|init|, lo);
      }
      assert |xs| * hi == |init| * hi + hi by {
        MulSucc(|init|, hi);
      }
    }
  }

  /** The mean lies between any lower and upper bound of its values. */
  lemma MeanBounds(xs: seq<nat>, lo: nat, hi: nat)
    requires xs != []
    requires forall t :: t in xs ==> lo <= t <= hi
    ensures lo as real <= Mean(xs) <= hi as real
  {
    SumBounds(xs, lo, hi);
    var n := |xs| as real;
    var total := Sum(xs) as real;
    assert lo as real * n <= total;
    assert total <= hi as real * n;
    QuotientBounds(total, n, lo as real, hi as real);
  }

  /** Dividing by a positive number preserves bounds: a * n <= s <= b * n gives a <= s / n <= b. */
  lemma QuotientBounds(s: real, n: real, a: real, b: real)
    requires 0.0 < n && a * n <= s <= b * n
    ensures a <= s / n <= b
  {
    var q := s / n;
    assert q * n == s;
    assert (q - a) * n == s - a * n;
    assert (b - q) * n == b * n - s;
  }

  /**
   * The entry recorded for an address whose probes gave `outcomes`: the
   * mean of the successful round-trip times, or none when no probe
   * succeeded.
   */
  function Latency(outcomes: seq<ProbeOutcome>): Wrappers.Option<real>
  {
    var times := SuccessfulTimes(outcomes);
    if times == [] then Wrappers.None else Wrappers.Some(Mean(times))
  }

  /**
   * An address gets an entry iff one of its probes was answered with
   * Success, and the entry is the mean of the successful round-trip times.
   */
  lemma LatencyMeansSuccess(outcomes: seq<ProbeOutcome>)
    ensures Latency(outcomes).Some? <==> exists t: nat :: Reply(Success, t) in outcomes
    ensures Latency(outcomes).Some? ==> Latency(outcomes).value == Mean(SuccessfulTimes(outcomes))
  {
    SuccessfulTimesMembers(outcomes);
    var times := SuccessfulTimes(outcomes);
    if times != [] {
      assert times[0] in times;
    }
  }

  /** A recorded latency lies between the smallest and the largest successful round-trip time. */
  lemma LatencyWithinReplies(outcomes: seq<ProbeOutcome>, lo: nat, hi: nat)
    requires forall t: nat :: Reply(Success, t) in outcomes ==> lo <= t <= hi
    requires Latency(outcomes).Some?
    ensures lo as real <= Latency(outcomes).value <= hi as real
  {
    SuccessfulTimesMembers(outcomes);
    MeanBounds(SuccessfulTimes(outcomes), lo, hi);
  }

  /** Replies of 10 ms, a timeout and 20 ms give 15 ms; timeouts alone give no entry. */
  lemma LatencyExamples()
    ensures Latency([Reply(Success, 10), Reply(TimedOut, 0), Reply(Success, 20)]) == Wrappers.Some(15.0)
    ensures Latency([Reply(TimedOut, 0), PingFailed, Reply(TimedOut, 0)]) == Wrappers.None
  {
    var probes := [Reply(Success, 10), Reply(TimedOut, 0), Reply(Success, 20)];
    assert probes[..2][..1] == [Reply(Success, 10)];
    assert probes[..2] == [Reply(Success, 10), Reply(TimedOut, 0)];
    assert SuccessfulTimes(probes) == [10, 20];
    var failures := [Reply(TimedOut, 0), PingFailed, Reply(TimedOut, 0)];
    assert failures[..2][..1] == [Reply(TimedOut, 0)];
    assert failures[..2] == [Reply(TimedOut, 0), PingFailed];
    assert SuccessfulTimes(failures) == [];
    assert Sum([10, 20]) == 30 by {
      assert [10, 20][..1] == [10];
    }
  }

  // ---------------------------------------------------------------------
  // The measuring loop
  // ---------------------------------------------------------------------

  /** `for (i = 0; i < attempts; i++)` runs max(attempts, 0) times. */
  function Attempts(attempts: int): nat
  {
    if attempts < 0 then 0 else attempts
  }

  /** `ip` once per probe, `n` times. */
  function Copies(ip: string, n: nat): (r: seq<string>)
    ensures |r| == n && forall s :: s in r ==> s == ip
  {
    seq(n, _ => ip)
  }

  /** The probe log of a run: every address, in order, once per attempt. */
  function Repeated(ips: seq<string>, attempts: nat): seq<string>
  {
    if ips == [] then [] else Copies(ips[0], attempts) + Repeated(ips[1..], attempts)
  }

  /** `Copies(ip, n)` holds `ip` n times and nothing else. */
  lemma {:induction false} CopiesCount(ip: string, n: nat, x: string)
    ensures multiset(Copies(ip, n))[x] == if x == ip then n else 0
  {
    if n > 0 {
      assert Copies(ip, n) == Copies(ip, n - 1) + [ip];
      CopiesCount(ip, n - 1, x);
    }
  }

  /**
   * Every address is probed exactly `attempts` times for each time it is
   * listed, whatever the probes answer.
   */
  lemma {:induction false} RepeatedCount(ips: seq<string>, attempts: nat, x: string)
    ensures multiset(Repeated(ips, attempts))[x] == multiset(ips)[x] * attempts
  {
    if ips != [] {
      RepeatedCount(ips[1..], attempts, x);
      RepeatedHeadCount(ips, attempts, x);
    }
  }

  /** The log of a non-empty list: the copies of its head, then the log of its tail. */
  lemma RepeatedHeadCount(ips: seq<string>, attempts: nat, x: string)
    requires ips != []
    requires multiset(Repeated(ips[1..], attempts))[x] == multiset(ips[1..])[x] * attempts
    ensures multiset(Repeated(ips, attempts))[x] == multiset(ips)[x] * attempts
  {
    var m := multiset(ips[1..])[x];
    CopiesCount(ips[0], attempts, x);
    assert ips == [ips[0]] + ips[1..];
    if x == ips[0] {
      assert multiset(Repeated(ips, attempts))[x] == attempts + m * attempts;
      assert multiset(ips)[x] == m + 1;
      assert (m + 1) * attempts == m * attempts + attempts by {
        MulSucc(m, attempts);
      }
    } else {
      assert multiset(Repeated(ips, attempts))[x] == m * attempts;
      assert multiset(ips)[x] == m;
    }
  }

  /**
   * The outcomes of `attempts` consecutive probes, the first of them being
   * probe number `first` of the pinger.
   */
  function ProbesFrom(answer: nat -> ProbeOutcome, first: nat, attempts: nat): (r: seq<ProbeOutcome>)
    ensures |r| == attempts
  {
    seq(attempts, j requires 0 <= j < attempts => answer(first + j))
  }

  /** The successful round-trip times of the `attempts` probes starting at a given probe number. */
  function ProbeTimes(answer: nat -> ProbeOutcome, attempts: nat): nat -> seq<nat>
  {
    first => SuccessfulTimes(ProbesFrom(answer, first, attempts))
  }

  /** `results` after an address with successful round-trip times `times`: written only when there is one. */
  function Record(results: map<string, real>, ip: string, times: seq<nat>): map<string, real>
  {
    if times == [] then results else results[ip := Mean(times)]
  }

  /**
   * Recording an address writes its entry, the mean of `times`, exactly when
   * some probe succeeded, and leaves every other entry as it was.
   */
  lemma RecordEntry(results: map<string, real>, ip: string, times: seq<nat>)
    ensures times == [] ==> Record(results, ip, times) == results
    ensures times != [] ==> ip in Record(results, ip, times) && Record(results, ip, times)[ip] == Mean(times)
    ensures forall k :: k != ip ==> (k in Record(results, ip, times) <==> k in results)
    ensures forall k :: k != ip && k in results ==> Record(results, ip, times)[k] == results[k]
  {
  }

  /**
   * Measuring `ips` in order, on top of `results`, when the next probe sent
   * is probe number `next` and `timesAt(n)` are the successful times of the
   * `attempts` probes from number `n` on: each address's probes come
   * straight after those of the address before it.
   */
  function MeasureFrom(results: map<string, real>, ips: seq<string>, timesAt: nat -> seq<nat>, next: nat, attempts: nat)
    : map<string, real>
    decreases |ips|
  {
    if ips == [] then results
    else MeasureFrom(Record(results, ips[0], timesAt(next)), ips[1..], timesAt, next + attempts, attempts)
  }

  /** The result of measuring `ips` from scratch, the first probe being number `start`. */
  function Measured(ips: seq<string>, answer: nat -> ProbeOutcome, start: nat, attempts: nat): map<string, real>
  {
    MeasureFrom(map[], ips, ProbeTimes(answer, attempts), start, attempts)
  }

  /** No address occurs twice. */
  ghost predicate Distinct(ips: seq<string>)
  {
    forall i, j :: 0 <= i < j < |ips| ==> ips[i] != ips[j]
  }

  /** Measuring addresses other than `ip` leaves the entry of `ip` as it was. */
  lemma {:induction false} MeasureFromUntouched(results: map<string, real>, ips: seq<string>, timesAt: nat -> seq<nat>,
                                                next: nat, attempts: nat, ip: string)
    requires ip !in ips
    ensures ip in MeasureFrom(results, ips, timesAt, next, attempts) <==> ip in results
    ensures ip in results ==> MeasureFrom(results, ips, timesAt, next, attempts)[ip] == results[ip]
    decreases |ips|
  {
    if ips != [] {
      assert ips[0] in ips;
      MeasureFromUntouched(Record(results, ips[0], timesAt(next)), ips[1..], timesAt, next + attempts, attempts, ip);
    }
  }

  /** Only probed addresses get an entry. */
  lemma MeasuredOnlyProbed(ips: seq<string>, answer: nat -> ProbeOutcome, start: nat, attempts: nat, ip: string)
    requires ip in Measured(ips, answer, start, attempts)
    ensures ip in ips
  {
    if ip !in ips {
      MeasureFromUntouched(map[], ips, ProbeTimes(answer, attempts), start, attempts, ip);
    }
  }

  /** The first address's entry comes from the first `attempts` probes, when it does not recur. */
  lemma MeasureFromHead(results: map<string, real>, ips: seq<string>, timesAt: nat -> seq<nat>, next: nat, attempts: nat)
    requires ips != [] && ips[0] !in ips[1..] && ips[0] !in results
    ensures ips[0] in MeasureFrom(results, ips, timesAt, next, attempts) <==> timesAt(next) != []
    ensures ips[0] in MeasureFrom(results, ips, timesAt, next, attempts) ==>
              MeasureFrom(results, ips, timesAt, next, attempts)[ips[0]] == Mean(timesAt(next))
  {
    var recorded := Record(results, ips[0], timesAt(next));
    assert MeasureFrom(results, ips, timesAt, next, attempts)
        == MeasureFrom(recorded, ips[1..], timesAt, next + attempts, attempts);
    MeasureFromUntouched(recorded, ips[1..], timesAt, next + attempts, attempts, ips[0]);
  }

  /** Where the address at `i` stands after measuring, for distinct addresses. */
  lemma {:induction false} MeasureFromAt(results: map<string, real>, ips: seq<string>, timesAt: nat -> seq<nat>,
                                         next: nat, attempts: nat, i: nat)
    requires Distinct(ips) && i < |ips| && ips[i] !in results
    decreases i
    ensures ips[i] in MeasureFrom(results, ips, timesAt, next, attempts) <==> timesAt(next + i * attempts) != []
    ensures ips[i] in MeasureFrom(results, ips, timesAt, next, attempts) ==>
              MeasureFrom(results, ips, timesAt, next, attempts)[ips[i]] == Mean(timesAt(next + i * attempts))
  {
    var rest := ips[1..];
    if i == 0 {
      assert next + i * attempts == next;
      assert ips[0] !in rest by {
        assert forall j :: 0 <= j < |rest| ==> rest[j] != ips[0];
      }
      MeasureFromHead(results, ips, timesAt, next, attempts);
    } else {
      var recorded := Record(results, ips[0], timesAt(next));
      assert MeasureFrom(results, ips, timesAt, next, attempts)
          == MeasureFrom(recorded, rest, timesAt, next + attempts, attempts);
      assert rest[i - 1] == ips[i];
      assert ips[i] !in recorded;
      assert Distinct(rest);
      assert next + attempts + (i - 1) * attempts == next + i * attempts;
      MeasureFromAt(recorded, rest, timesAt, next + attempts, attempts, i - 1);
    }
  }

  /**
   * For distinct addresses, an address has an entry iff one of its own
   * probes succeeded, and the entry is the mean of its own successful
   * round-trip times: the probes of the other addresses play no part.
   */
  lemma MeasuredPerAddress(ips: seq<string>, answer: nat -> ProbeOutcome, start: nat, attempts: nat, i: nat)
    requires Distinct(ips) && i < |ips|
    ensures ips[i] in Measured(ips, answer, start, attempts)
            <==> exists t: nat :: Reply(Success, t) in ProbesFrom(answer, start + i * attempts, attempts)
    ensures ips[i] in Measured(ips, answer, start, attempts) ==>
              Wrappers.Some(Measured(ips, answer, start, attempts)[ips[i]])
              == Latency(ProbesFrom(answer, start + i * attempts, attempts))
  {
    var probes := ProbesFrom(answer, start + i * attempts, attempts);
    var times := SuccessfulTimes(probes);
    var measured := Measured(ips, answer, start, attempts);
    assert (ips[i] in measured <==> times != []) && (ips[i] in measured ==> measured[ips[i]] == Mean(times)) by {
      MeasureFromAt(map[], ips, ProbeTimes(answer, attempts), start, attempts, i);
      assert ProbeTimes(answer, attempts)(start + i * attempts) == times;
    }
    LatencyMeansSuccess(probes);
  }

  /** Extending the probe log by one probe of the current address. */
  lemma LogStep(log: seq<string>, ip: string, i: nat)
    ensures log + Copies(ip, i) + [ip] == log + Copies(ip, i + 1)
  {
  }

  /** Measuring the remaining addresses from `k` on is recording `ips[k]`, then measuring from `k + 1` on. */
  lemma MeasureStep(results: map<string, real>, ips: seq<string>, k: nat, timesAt: nat -> seq<nat>, next: nat, attempts: nat)
    requires k < |ips|
    ensures MeasureFrom(Record(results, ips[k], timesAt(next)), ips[k + 1..], timesAt, next + attempts, attempts)
            == MeasureFrom(results, ips[k..], timesAt, next, attempts)
  {
    assert ips[k..][1..] == ips[k + 1..];
  }

  /** The probe log of the remaining addresses from `k` on starts with the copies of `ips[k]`. */
  lemma RepeatedStep(log: seq<string>, ips: seq<string>, k: nat, attempts: nat)
    requires k < |ips|
    ensures log + Copies(ips[k], attempts) + Repeated(ips[k + 1..], attempts) == log + Repeated(ips[k..], attempts)
  {
    assert ips[k..][1..] == ips[k + 1..];
  }

  /**
   * One turn of the measuring loop: probing `ips[k]` appends its copies to
   * the log and records its entry, which keeps both loop invariants.
   */
  lemma LoopStep(sent0: seq<string>, log: seq<string>, sent: seq<string>, ips: seq<string>, k: nat, attempts: nat,
                 timesAt: nat -> seq<nat>, start: nat, before: map<string, real>, results: map<string, real>)
    requires k < |ips|
    requires sent0 + Repeated(ips, attempts) == log + Repeated(ips[k..], attempts)
    requires MeasureFrom(before, ips[k..], timesAt, |log|, attempts) == MeasureFrom(map[], ips, timesAt, start, attempts)
    requires sent == log + Copies(ips[k], attempts)
    requires results == Record(before, ips[k], timesAt(|log|))
    ensures sent0 + Repeated(ips, attempts) == sent + Repeated(ips[k + 1..], attempts)
    ensures MeasureFrom(results, ips[k + 1..], timesAt, |sent|, attempts) == MeasureFrom(map[], ips, timesAt, start, attempts)
  {
    RepeatedStep(log, ips, k, attempts);
    MeasureStep(before, ips, k, timesAt, |log|, attempts);
  }

  /**
   * The attempts for one address: sends `attempts` probes to `ip` and
   * collects the round-trip times of the successful ones. A reply with any
   * other status is ignored; a ping exception ends only that attempt.
   */
  method ProbeAddress(ip: string, pinger: Pinger, attempts: int) returns (successfulPings: seq<nat>)
    modifies pinger
    ensures pinger.sent == old(pinger.sent) + Copies(ip, Attempts(attempts))
    ensures successfulPings == SuccessfulTimes(ProbesFrom(pinger.answer, |old(pinger.sent)|, Attempts(attempts)))
  {
    ghost var probes := ProbesFrom(pinger.answer, |pinger.sent|, Attempts(attempts));
    successfulPings := [];
    var i := 0;
    while i < attempts
      invariant 0 <= i <= Attempts(attempts)
      invariant pinger.sent == old(pinger.sent) + Copies(ip, i)
      invariant successfulPings == SuccessfulTimes(probes[..i])
    {
      var reply := pinger.SendPing(ip);
      assert reply == probes[i];
      assert probes[..i + 1] == probes[..i] + [probes[i]];
      LogStep(old(pinger.sent), ip, i);
      if reply.PingFailed? {
        i := i + 1;
        continue;
      }
      if reply.status == Success {
        successfulPings := successfulPings + [reply.roundtripTime];
      }
      i := i + 1;
    }
    assert probes[..i] == probes;
  }

  /**
   * Probes every address in turn. An address with at least one successful
   * probe is mapped to the mean of its successful round-trip times; an
   * address with none gets no entry.
   */
  method PingAddresses(ipAddresses: seq<string>, pinger: Pinger, attempts: int := DefaultAttempts)
    returns (results: map<string, real>)
    modifies pinger
    ensures pinger.sent == old(pinger.sent) + Repeated(ipAddresses, Attempts(attempts))
    ensures results == Measured(ipAddresses, pinger.answer, |old(pinger.sent)|, Attempts(attempts))
  {
    ghost var count := Attempts(attempts);
    ghost var timesAt := ProbeTimes(pinger.answer, count);
    ghost var start := |pinger.sent|;
    results := map[];
    assert ipAddresses[0..] == ipAddresses;
    for k := 0 to |ipAddresses|
      invariant old(pinger.sent) + Repeated(ipAddresses, count) == pinger.sent + Repeated(ipAddresses[k..], count)
      invariant MeasureFrom(results, ipAddresses[k..], timesAt, |pinger.sent|, count)
                == MeasureFrom(map[], ipAddresses, timesAt, start, count)
    {
      var ip := ipAddresses[k];
      ghost var log := pinger.sent;
      ghost var before := results;
      var successfulPings := ProbeAddress(ip, pinger, attempts);
      if successfulPings != [] {
        results := results[ip := Mean(successfulPings)];
      }
      assert results == Record(before, ip, timesAt(|log|));
      LoopStep(old(pinger.sent), log, pinger.sent, ipAddresses, k, count, timesAt, start, before, results);
    }
    assert ipAddresses[|ipAddresses|..] == [];
  }
}
