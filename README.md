# GetCleanIp candidate selection, modelled in Dafny

GetCleanIp reads the latest scan-result JSON file and pulls out every string
value that parses as an IP address. It groups the addresses by "subnet",
meaning the text before the first `.`. It caps every group at a few randomly
chosen members, pings each remaining address a few times, and keeps the
addresses whose mean round-trip time lies in a configured window. Finally it
writes one randomly chosen address per surviving group to a file.

This project models the three services that do that work, plus the
composition the program runs:

- `ip_processor.dfy` (module `IpProcessor`) models the four selection steps.
  - `GroupBySubnet` is a pure function, a fold over the input. The lemma `GroupBySubnetGroups` proves by induction that it satisfies the grouping invariant `IsGrouping`.
  - `LimitGroupSize` and `FilterByThresholds` are methods. Each loops over the keys of the input map and builds a fresh result map, as `IpProcessor.cs` does.
  - `SelectRandomIps` is a method that draws one index per group.
  - The random generator is nondeterministic choice (`:|`). A contract says which results are possible, never how likely they are.
- `ip_extractor.dfy` (module `IpExtractor`) models the recursive walk over a JSON document.
  - The walk inserts into one shared set object, `IpSet`.
  - It is specified by the function `Collected` and characterised by the predicate `Occurs`.
  - The address parser is a function parameter `isIp`, so nothing is assumed about it.
- `network_analyzer.dfy` (module `NetworkAnalyzer`) models the measuring loop.
  - The network is a `Pinger` object that answers its n-th probe with a fixed outcome `answer(n)` and logs every probed address.
  - The loop is proved against the specification function `Measured`.
  - Per-address facts are proved about `Measured`.
- `pipeline.dfy` (module `Pipeline`) models the program's run without its I/O. It chains the steps with the latency window as parameters, which default to the configuration's default thresholds (50 and 100), and with the defaults that take effect.
- `wrappers.dfy` holds the `Option` and `Result` datatypes.

The effective defaults are a group cap of 5 and 3 probes per address. These
are the defaults of the concrete classes, which the program calls directly.
The interfaces declare 20 and 5, but those values are never used.

Latencies are exact reals: the sum of the successful round-trip times divided
by their number.

## Model

| member | source | states |
|---|---|---|
| IpProcessor.SubnetKey | Services/IpProcessor.cs:12 | The key is a prefix of the address and contains no `.`. When the key is shorter than the address, the next character is the first `.`. |
| IpProcessor.SubnetKeyUnique | Services/IpProcessor.cs:12 | The three properties of the key determine it uniquely: it is exactly the text before the first `.`. |
| IpProcessor.UndottedIsOwnKey | Services/IpProcessor.cs:12 | An address with no `.` (such as `::1`) is its own key. |
| IpProcessor.Filter | Services/IpProcessor.cs:43-47 | The filtered list holds exactly the elements that pass the predicate, and is no longer than its input. |
| IpProcessor.Members | Services/IpProcessor.cs:11-13 | The addresses of one key are exactly the input addresses with that key. |
| IpProcessor.MembersCount | Services/IpProcessor.cs:11-13 | An address occurs among the members of its own key as often as in the input, and never among those of another key. |
| IpProcessor.GroupBySubnetGroups | Services/IpProcessor.cs:9-14 | `GroupBySubnet` returns a grouping of the input. There is a key exactly for every key some address has, and each group is the input's addresses of that key, in input order. |
| IpProcessor.GroupsShareKey | Services/IpProcessor.cs:11-13 | The key set is the set of the addresses' keys. Every group is non-empty, and all its members share its key. |
| IpProcessor.AddressInOwnGroup | Services/IpProcessor.cs:11-13 | Every input address is in the group of its key, as many times as it occurs in the input, and in no other group. |
| IpProcessor.GroupingConservesCount | Services/IpProcessor.cs:11-13 | The group sizes add up to the input length, duplicates included. |
| IpProcessor.GroupingScenario | Services/IpProcessor.cs:9-14 | `10.0.0.1`, `10.0.0.2`, `192.168.1.1` group into `"10"` with the first two and `"192"` with the last. |
| IpProcessor.Shuffle | Services/IpProcessor.cs:25 | The random ordering is a permutation of the group (same multiset). |
| IpProcessor.Take | Services/IpProcessor.cs:25 | `Take(n)` is a prefix of length `n` clamped to `[0, Count]`. |
| IpProcessor.PrefixSubMultiset | Services/IpProcessor.cs:25 | A prefix holds no more copies of any address than the whole list. |
| IpProcessor.LimitGroupSize | Services/IpProcessor.cs:16-31 | The output has the same key set as the input. A group with at most `maxSize` members passes through unchanged. A larger group becomes `maxSize` of its members drawn without replacement (none when `maxSize` is negative). |
| IpProcessor.CappedSize | Services/IpProcessor.cs:23-26 | For `maxSize >= 0`, a capped group has `min(Count, maxSize)` members, all taken from the group. |
| IpProcessor.FilterConcat | Services/IpProcessor.cs:43-47 | Filtering distributes over concatenation, so survivors keep their relative order. |
| IpProcessor.FilterCount | Services/IpProcessor.cs:43-47 | A passing address is kept as often as it occurs; a failing one is dropped entirely. |
| IpProcessor.Survivors | Services/IpProcessor.cs:43-47 | An address survives iff it has a latency entry and `threshold1 <= latency <= threshold2`. |
| IpProcessor.ThresholdsInclusive | Services/IpProcessor.cs:44-46 | A latency equal to either threshold passes; a latency outside the window does not. |
| IpProcessor.ThresholdScenario | Services/IpProcessor.cs:43-47 | With latencies 60, 150 and 80 ms and the window [50, 100], group `"10"` keeps `10.0.0.1` only and group `"192"` keeps `192.168.1.1`. |
| IpProcessor.FilterByThresholds | Services/IpProcessor.cs:33-56 | Output keys are a subset of the input keys. A key stays iff one of its addresses is within the thresholds, and its group is exactly its survivors in order. Every output group is non-empty. The output is empty when `threshold1 > threshold2`. |
| IpProcessor.NextBelow | Services/IpProcessor.cs:62 | `Next(n)` is some index below `n`, and 0 when `n` is 0. |
| IpProcessor.SelectRandomIps | Services/IpProcessor.cs:58-64 | Selection succeeds iff every group is non-empty. On success it has exactly the input keys, and each chosen address is a member of its key's group. On failure it names a key whose group is empty (the out-of-range index). |
| IpExtractor.Collected | Services/IpExtractor.cs:22-42 | Every collected string satisfies the address parser. |
| IpExtractor.CollectedMeansOccurring | Services/IpExtractor.cs:22-42 | A string is collected iff it is a string value somewhere in the document (at any depth, as a property value or array item) and it parses as an address. |
| IpExtractor.CollectedChildrenMeansOccurring | Services/IpExtractor.cs:32-40 | The loops over object properties and array items visit every child and nothing else. |
| IpExtractor.ScalarsContributeNothing | Services/IpExtractor.cs:24-41 | Numbers, booleans and null contribute nothing. |
| IpExtractor.NamesIgnored | Services/IpExtractor.cs:32-35 | Property names are never examined: renaming properties does not change the result. |
| IpExtractor.IpSet.Add | Services/IpExtractor.cs:29 | Adding a string to the shared set is set union, so no address is held twice. |
| IpExtractor.ExtractIpsRecursive | Services/IpExtractor.cs:22-42 | The walk adds exactly the document's collected addresses to the shared set and leaves its earlier contents in place. |
| IpExtractor.ExtractIpAddresses | Services/IpExtractor.cs:9-20 | The result is the collected set itself (the final parser filter keeps every member): exactly the address-valued strings of the document, each once. |
| NetworkAnalyzer.Pinger.SendPing | Services/NetworkAnalyzer.cs:21 | One probe is logged, and its outcome is the pinger's answer for that probe number. |
| NetworkAnalyzer.SuccessfulTimes | Services/NetworkAnalyzer.cs:21-25 | At most one round-trip time is collected per probe. |
| NetworkAnalyzer.SuccessfulTimesMembers | Services/NetworkAnalyzer.cs:21-25 | A round-trip time is collected iff some probe was answered with Success and that time. Other statuses and ping exceptions contribute nothing. |
| NetworkAnalyzer.SumBounds | Services/NetworkAnalyzer.cs:36 | A sum of `n` times each within `[lo, hi]` lies within `[n*lo, n*hi]`. |
| NetworkAnalyzer.MeanBounds | Services/NetworkAnalyzer.cs:36 | The mean of times within `[lo, hi]` lies within `[lo, hi]`. |
| NetworkAnalyzer.LatencyMeansSuccess | Services/NetworkAnalyzer.cs:34-37 | `Latency`: an address's probes yield an entry iff one probe succeeded, and the entry is the mean of the successful round-trip times. |
| NetworkAnalyzer.RecordEntry | Services/NetworkAnalyzer.cs:34-37 | `Record` writes an address's entry, the mean of its successful times, exactly when one of its probes succeeded, and leaves every other entry as it was. |
| NetworkAnalyzer.LatencyWithinReplies | Services/NetworkAnalyzer.cs:34-37 | A recorded latency lies between the smallest and the largest successful round-trip time. |
| NetworkAnalyzer.LatencyExamples | Services/NetworkAnalyzer.cs:34-37 | Replies of 10 ms, a timeout and 20 ms give 15 ms. Timeouts and exceptions alone give no entry. |
| NetworkAnalyzer.Copies | Services/NetworkAnalyzer.cs:17 | The probes of one address form a log of exactly `attempts` entries, all naming that address. |
| NetworkAnalyzer.RepeatedCount | Services/NetworkAnalyzer.cs:13-17 | Every address is probed exactly `attempts` times for each time it is listed, whatever the probes answer. |
| NetworkAnalyzer.MeasuredOnlyProbed | Services/NetworkAnalyzer.cs:13-36 | Result keys are a subset of the probed addresses. |
| NetworkAnalyzer.MeasureFromUntouched | Services/NetworkAnalyzer.cs:13-37 | Measuring other addresses leaves an address's entry, or its absence, as it was. |
| NetworkAnalyzer.MeasureFromAt | Services/NetworkAnalyzer.cs:13-37 | `MeasureFrom`: for distinct addresses, the address at position `i` has an entry iff its own probes (numbers `next + i*attempts` onwards) include a success. The entry is their mean. |
| NetworkAnalyzer.MeasuredPerAddress | Services/NetworkAnalyzer.cs:13-37 | `Measured`: for distinct addresses, an address has an entry iff one of its own probes succeeded, and the entry is its own latency. The probes of other addresses play no part, because the success list is fresh per address. |
| NetworkAnalyzer.ProbeAddress | Services/NetworkAnalyzer.cs:15-32 | Exactly `max(attempts, 0)` probes go to the address. The collected times are the successful times of those probes, in order; a ping exception ends only its own attempt. |
| NetworkAnalyzer.PingAddresses | Services/NetworkAnalyzer.cs:8-41 | The log is every address in order, `max(attempts, 0)` times each. The results are the measurement specified by `Measured` over the pinger's answers. |
| Pipeline.ConcatGroupsMembers | Program.cs:40 | An address is in the concatenation of the listed groups iff it is in one of them. |
| Pipeline.ConcatGroupsCount | Program.cs:40 | With distinct keys listed, an address that belongs to one listed group only occurs in the concatenation exactly as often as in that group. |
| Pipeline.ConcatGroupsAbsent | Program.cs:40 | An address in none of the listed groups does not occur in the concatenation. |
| Pipeline.Flatten | Program.cs:39-40 | The probed list is the concatenation of all the groups, in an order that lists every key exactly once. So it holds exactly the members of the groups, each as often as in its group. |
| Pipeline.CappedMember | Program.cs:31-35 | A member of a capped group is an input address filed under its own key. |
| Pipeline.ProbedAtMostListed | Program.cs:31-40 | An address occurs in the flattened capped groups at most as often as in the input. |
| Pipeline.SelectCleanIps | Program.cs:31-47 | The run's selection never fails. Every selected address is an input address, filed under its own subnet key, with a measured latency within `[threshold1, threshold2]`. The latencies are exactly `Measured` over the probed addresses and the pinger's answers, 3 probes each. Only probed addresses get a latency, and no address is probed more often than it is listed in the input. Each probed address is pinged exactly 3 times per listing. |

## Left out

- Reading files, listing the search directory, loading the configuration, console output, writing `output.txt` and exiting on error are I/O and are not modelled. The thresholds read from `config.json` are parameters of `SelectCleanIps`, defaulting to the configuration's defaults 50 and 100.
- Parsing JSON text is not modelled. The walk starts from an already parsed `Json` value, and the parse error path is not modelled.
- `IPAddress.TryParse` is a library call. It is the parameter `isIp`, with no properties assumed.
- `value != null` on a JSON string element always holds for a string node, so the model has no null case for strings.
- The ICMP ping, `await`, and the 1000 ms timeout are network I/O. The `Pinger` oracle replaces them: a timeout appears as a reply whose status is not Success.
- Of the exceptions a ping can raise, only the caught `PingException` (`PingFailed`) is modelled. Any other exception would escape the loop and is not modelled.
- The uniform distribution of `Random.Next` and of `OrderBy(random key)` is probabilistic and is not captured. The shuffle is modelled as repeated nondeterministic draws of the next element, which can produce every ordering the random sort can.
- Floating-point rounding of `Average()`, and the comparison of a `double` latency with `int` thresholds, are modelled with exact reals.
- `long` round-trip times are modelled as unbounded naturals. Overflow of the sum is not modelled.
- Dictionary enumeration order is unspecified. The loops over keys visit them in a nondeterministic order, and `Flatten` concatenates groups in a nondeterministic order.
- The inner probe loop of `PingAddressesAsync` is modelled as its own method, `ProbeAddress`, called once per address. The nested loop is otherwise unchanged.
- The processor receives a sequence, as the code takes an `IEnumerable`, so duplicates are kept and counted. In the program, the addresses come from the extractor's set and are distinct.
- IpProcessor.CappedSize: the size `min(Count, maxSize)` is stated for `maxSize >= 0` only. For a negative cap, the code's `Take` keeps nothing, which `LimitGroupSize`'s own contract states.
- NetworkAnalyzer.MeasuredPerAddress: the per-address characterisation is stated for distinct addresses only. With a repeated address, the entry reflects its last listing that had a success, which `Measured` itself describes.
- Pipeline.SelectCleanIps: what is selected depends on the random draws. The contract states what holds for every draw, not which subnets survive.
