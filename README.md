# Partial-replication test client: setup, discovery and convergence

This project models, in Dafny, the decision-making of the FetchOnDemand test
client of a two-datacenter Cassandra experiment, together with two small
decisions of its cluster launcher.

- `Cass` (`cass.dfy`) models the class `Cass`. The Java static fields
  `_local_dc`, `_remote_dcs`, `_ks_name`, `_ks_name_attr_pop` and
  `_ks_name_obj_loc` become fields of the class `Cass.Cass`, with `None`
  standing for `null`. The Cassandra driver becomes a `Session` that holds a
  script of replies and a log of issued statements. Each `Execute` logs its
  statement and consumes the next reply. A reply is a result set (a list of
  rows, each reduced to its `data_center`), an `InvalidQuery` exception (its
  `toString()` text) or any other driver exception. The two `while (true)`
  loops become loops over the script. A script that runs out yields the
  fault `Exhausted`, where the real client would keep waiting.
  Each method is specified by a function of the script: `Discover` for
  `_WaitUntilYouSee2DCs`, `AwaitSchema` for `WaitForSchemaCreation`. The
  lemmas about those functions (`DiscoverSpec` among them) state the loops'
  promises.
- `RunCluster` (`run_cluster.dfy`) models `GetUsWest1PubIp` of
  `run-cluster.py` over the file's list of lines, with Python 2's
  `str.strip()` and `str.split(" ")` written out. It also models the choice
  of the experiment id in `main`, which takes the formatted UTC timestamp as
  a parameter.
- `Common` (`common.dfy`) holds `Option`, `Min` and `IndexOf`, and the
  sequence lemmas `SplitAt` (cutting a sequence around an occurrence) and
  `Regroup` (associativity of concatenation).

The model follows the code, also where one might expect more of it:

- The peer loop stops at the first poll that returns exactly one row. There
  is no target number of datacenters to wait for.
- The remote DCs are a list taken from that poll, not a set. They are not
  checked to differ from the local DC.
- Neither loop has a timeout. An interrupt during `Thread.sleep(100)` ends
  either loop with `InterruptedException`; that path is left out.
- Creating a keyspace that already exists is not told apart from any other
  driver error: there is no separate schema-conflict outcome.

## Model

| member | source | states |
|---|---|---|
| `Cass.Completion` | acorn/test/partial-rep-2-dcs/FetchOnDemand/src/main/java/Cass.java:143-154 | how the caller's `execute` ends on a reply (here and at line 183): a result set of any size returns normally and a driver exception propagates; no reply left is `Exhausted` |
| `Cass.Sanitize` | acorn/test/partial-rep-2-dcs/FetchOnDemand/src/main/java/Cass.java:61 | `replace("-", "_")`: same length, every `-` becomes `_` and every other character is kept, position by position |
| `Cass.KeyspaceName` | acorn/test/partial-rep-2-dcs/FetchOnDemand/src/main/java/Cass.java:60-61 | the keyspace is `partial_rep_test_` followed by the id with each `-` replaced by `_`, so it contains no `-` |
| `Cass.SanitizeFixedPoint` | acorn/test/partial-rep-2-dcs/FetchOnDemand/src/main/java/Cass.java:61 | sanitizing leaves an id unchanged exactly when the id has no `-` (both directions) |
| `Cass.SanitizeMergesIds` | acorn/test/partial-rep-2-dcs/FetchOnDemand/src/main/java/Cass.java:60-61 | the derivation is not injective: ids `a-b` and `a_b` name the same keyspace |
| `Cass.Cass.constructor` | acorn/test/partial-rep-2-dcs/FetchOnDemand/src/main/java/Cass.java:18-26 | all five name and DC fields start out null |
| `Cass.Cass.Init` | acorn/test/partial-rep-2-dcs/FetchOnDemand/src/main/java/Cass.java:58-71 | runs the DC discovery first. On success the keyspace name is `KeyspaceName(expId)` and the two auxiliary names are it plus `_attr_pop` and `_obj_loc`. On failure (where the source exits with status 1) the names are not assigned |
| `Cass.Session.Execute` | acorn/test/partial-rep-2-dcs/FetchOnDemand/src/main/java/Cass.java:89 | an execute logs its statement and answers with the next scripted reply, or with none once the script is used up |
| `Cass.Ends` | acorn/test/partial-rep-2-dcs/FetchOnDemand/src/main/java/Cass.java:91-92 | the loop exits (here and at lines 185-186): the peer poll stops on exactly one row or on an exception, the schema read stops on anything but an `unconfigured table` InvalidQuery |
| `Cass.FirstEnd` | acorn/test/partial-rep-2-dcs/FetchOnDemand/src/main/java/Cass.java:88-92 | the index of the first reply that ends a polling loop: every earlier reply keeps the loop going, and it is `\|replies\|` if no reply ends it |
| `Cass.FirstEndSkips` | acorn/test/partial-rep-2-dcs/FetchOnDemand/src/main/java/Cass.java:88-101 | replies that do not end a loop are only skipped: the end is found in the rest, offset by their number |
| `Cass.DataCenters` | acorn/test/partial-rep-2-dcs/FetchOnDemand/src/main/java/Cass.java:103-105 | the `data_center` values of the rows, one per row, in row order |
| `Cass.Discover` | acorn/test/partial-rep-2-dcs/FetchOnDemand/src/main/java/Cass.java:77-105 | the effect of discovery as a function of the reply script: a missing, failing or non-one-row `system.local` reply ends it before any peer poll, otherwise `AfterLocal` decides |
| `Cass.AfterLocal` | acorn/test/partial-rep-2-dcs/FetchOnDemand/src/main/java/Cass.java:83-105 | after the one local row: the first reply that ends the peer loop decides success with that poll's DCs, a rethrow, or `Exhausted`, after one poll more than the skipped ones |
| `Cass.DiscoverSpec` | acorn/test/partial-rep-2-dcs/FetchOnDemand/src/main/java/Cass.java:77-105 | the local DC is set exactly when `system.local` gave exactly one row, and is that row's `data_center`. Any other row count fails with that count and no peer poll. The last peer poll is the first one that ends the loop (the number of polls is one more than `FirstEnd` of the peer replies), and every poll before it returned a row list of size other than 1. Success comes exactly when the last poll has exactly one row (both directions), and the remote DCs are that poll's DCs alone (one DC). A driver exception on the local query or on the last poll propagates. Running out of replies, before the local query or during the peer polls, is `Exhausted` |
| `Cass.DiscoverAfterLocal` | acorn/test/partial-rep-2-dcs/FetchOnDemand/src/main/java/Cass.java:83-105 | once system.local has given exactly one row, a first ending peer poll that returns row lists makes discovery succeed with that row's DC as local DC, that poll's DCs as remote DCs and one poll more than the skipped ones |
| `Cass.PeerPollSupersedes` | acorn/test/partial-rep-2-dcs/FetchOnDemand/src/main/java/Cass.java:88-105 | polls with zero or two or more rows only cause another poll. The first one-row poll ends discovery, its DCs become the remote DCs whatever came before, and the number of polls is one more than the number of earlier polls |
| `Cass.Cass.WaitUntilYouSee2DCs` | acorn/test/partial-rep-2-dcs/FetchOnDemand/src/main/java/Cass.java:75-110 | the outcome and the new `_local_dc`/`_remote_dcs` are those of `Discover` on the script. The issued statements are one `system.local` query followed by one `system.peers` query per poll. Exactly the replies it read are consumed |
| `Cass.Entry` | acorn/test/partial-rep-2-dcs/FetchOnDemand/src/main/java/Cass.java:135-137 | one DC's part of the replication map, `, '<dc>' : 1` |
| `Cass.Entries` | acorn/test/partial-rep-2-dcs/FetchOnDemand/src/main/java/Cass.java:134-137 | the entries of the DCs concatenated in list order |
| `Cass.EntriesSnoc` | acorn/test/partial-rep-2-dcs/FetchOnDemand/src/main/java/Cass.java:134-137 | appending a DC to the list appends its `, '<dc>' : 1` entry to the clause, which is what the `StringBuilder` loop relies on |
| `Cass.ParseEntries` | acorn/test/partial-rep-2-dcs/FetchOnDemand/src/main/java/Cass.java:134-141 | a reader for the DC part of the replication map. Whatever it accepts is exactly the serialisation of the quote-free DC list it returns |
| `Cass.ParseEntryFront` | acorn/test/partial-rep-2-dcs/FetchOnDemand/src/main/java/Cass.java:135-137 | the reader takes one quote-free DC's `, '<dc>' : 1` off the front of a clause and then reads the rest, so it accepts the whole clause exactly when it accepts the rest |
| `Cass.ParseEntriesOfEntries` | acorn/test/partial-rep-2-dcs/FetchOnDemand/src/main/java/Cass.java:134-141 | round trip: every quote-free DC list is read back unchanged from its clause, so each DC appears once, in list order, with count 1 |
| `Cass.KeyspaceStatement` | acorn/test/partial-rep-2-dcs/FetchOnDemand/src/main/java/Cass.java:139-142 | `CREATE KEYSPACE <ks> WITH replication = { 'class' : 'NetworkTopologyStrategy'<entries>};` at ALL |
| `Cass.TableStatement` | acorn/test/partial-rep-2-dcs/FetchOnDemand/src/main/java/Cass.java:147-153 | `CREATE TABLE <ks>.t0 (obj_id int, user text, topic text, PRIMARY KEY (obj_id));` at ALL |
| `Cass.Cass.CreateSchema` | acorn/test/partial-rep-2-dcs/FetchOnDemand/src/main/java/Cass.java:130-158 | issues `CREATE KEYSPACE` with `NetworkTopologyStrategy` and the entries of the local DC followed by the remote DCs, all at ALL. Only if that succeeds does it issue `CREATE TABLE <ks>.t0 (obj_id int, user text, topic text, PRIMARY KEY (obj_id))`, also at ALL. The first exception is propagated |
| `Cass.SchemaReadStatement` | acorn/test/partial-rep-2-dcs/FetchOnDemand/src/main/java/Cass.java:177-178 | `select obj_id from <ks>.t0` at LOCAL_ONE |
| `Cass.Contains` | acorn/test/partial-rep-2-dcs/FetchOnDemand/src/main/java/Cass.java:186 | Java's `String.contains`: the text occurs at some position |
| `Cass.Retryable` | acorn/test/partial-rep-2-dcs/FetchOnDemand/src/main/java/Cass.java:185-186 | the one retried failure: an InvalidQuery whose text contains `unconfigured table` |
| `Cass.AwaitSchema` | acorn/test/partial-rep-2-dcs/FetchOnDemand/src/main/java/Cass.java:177-202 | every read before the last failed with an InvalidQuery containing `unconfigured table`. The last read is the first one that did not. Its result set (of any size) is success and any other exception is propagated. Running out of replies is `Exhausted` |
| `Cass.SchemaVisibleAfterRetries` | acorn/test/partial-rep-2-dcs/FetchOnDemand/src/main/java/Cass.java:181-194 | N `unconfigured table` errors followed by a result set give success after exactly N + 1 reads |
| `Cass.SchemaOtherErrorIsFatal` | acorn/test/partial-rep-2-dcs/FetchOnDemand/src/main/java/Cass.java:195-202 | any other InvalidQuery or driver error on the first read fails at once, with that error and one read |
| `Cass.Cass.WaitForSchemaCreation` | acorn/test/partial-rep-2-dcs/FetchOnDemand/src/main/java/Cass.java:170-205 | the outcome is that of `AwaitSchema` on the script. The issued statements are that many copies of `select obj_id from <ks>.t0` at LOCAL_ONE |
| `RunCluster.IsSpace` | acorn/test/AcornTest/run-cluster.py:21 | the characters Python 2's `str.strip()` removes: space, tab, newline, carriage return, vertical tab and form feed |
| `RunCluster.StripLeft` | acorn/test/AcornTest/run-cluster.py:21 | the result is a suffix of the input, everything dropped is whitespace, and the result does not start with whitespace |
| `RunCluster.StripRight` | acorn/test/AcornTest/run-cluster.py:21 | the result is a prefix of the input, everything dropped is whitespace, and the result does not end with whitespace |
| `RunCluster.Strip` | acorn/test/AcornTest/run-cluster.py:21 | the result is the middle of the line with only whitespace cut off either end (`Trims`), it neither starts nor ends with whitespace, and it is empty exactly when the line is all whitespace |
| `RunCluster.Trims` | acorn/test/AcornTest/run-cluster.py:21 | one string is another with only whitespace removed from its two ends |
| `RunCluster.StripTrims` | acorn/test/AcornTest/run-cluster.py:21 | `str.strip()` removes only leading and trailing whitespace: its result is a middle slice of the line |
| `RunCluster.Split` | acorn/test/AcornTest/run-cluster.py:21 | `split(" ")` gives at least one field and no field contains a space |
| `RunCluster.JoinSplit` | acorn/test/AcornTest/run-cluster.py:21 | joining the fields with single spaces gives the string back |
| `RunCluster.SplitJoin` | acorn/test/AcornTest/run-cluster.py:21 | splitting undoes joining for space-free fields, so `Split` and `Join` are inverse |
| `RunCluster.SplitCount` | acorn/test/AcornTest/run-cluster.py:21-22 | there is one field more than there are spaces |
| `RunCluster.ParseLine` | acorn/test/AcornTest/run-cluster.py:21-23 | a line is malformed unless its stripped text splits on single spaces into exactly two fields, the dc and the ip |
| `RunCluster.ParseLinePair` | acorn/test/AcornTest/run-cluster.py:21-25 | a line gives dc and ip exactly when, stripped, it is the dc, one space and the ip, both space-free |
| `RunCluster.SplitPair` | acorn/test/AcornTest/run-cluster.py:21-25 | a string splits into exactly the fields dc and ip when it is dc, one space and ip, both space-free |
| `RunCluster.ParseLineMalformed` | acorn/test/AcornTest/run-cluster.py:21-23 | a line is malformed exactly when its stripped text does not hold exactly one space, so blank lines and doubled spaces are malformed |
| `RunCluster.ParseLinesAppend` | acorn/test/AcornTest/run-cluster.py:20-21 | each line is classified on its own, in order: parsing a concatenation of line lists concatenates their parses |
| `RunCluster.Stops` | acorn/test/AcornTest/run-cluster.py:22-27 | the lines on which the loop leaves the function: a malformed line raises, a `us-west-1` line returns |
| `RunCluster.FirstStop` | acorn/test/AcornTest/run-cluster.py:20-27 | the index of the first line that is malformed or for `us-west-1`: every earlier line is a pair for another DC |
| `RunCluster.FormatError` | acorn/test/AcornTest/run-cluster.py:23 | the `RuntimeError` text `Unexpected format [<line>]s`, stray `s` included |
| `RunCluster.Scan` | acorn/test/AcornTest/run-cluster.py:17-27 | the result is None exactly when every line is well formed and none is `us-west-1`. A raise names a malformed line with every earlier line a pair for another DC. A returned ip is that of a `us-west-1` line with every earlier line a pair for another DC |
| `RunCluster.FirstStopConcat` | acorn/test/AcornTest/run-cluster.py:20-27 | the stopping line of `a + b` is that of `a` if `a` has one, else `\|a\|` plus that of `b` |
| `RunCluster.ScanConcat` | acorn/test/AcornTest/run-cluster.py:20-27 | once a prefix decides the result, the rest is never looked at; otherwise the result is that of the rest. So a malformed line after a match does not raise, and one before any match raises |
| `RunCluster.LinesConcat` | acorn/test/AcornTest/run-cluster.py:20-27 | the same property for the file's raw lines |
| `RunCluster.GetUsWest1PubIp` | acorn/test/AcornTest/run-cluster.py:17-27 | the loop's result is `Scan` of the parsed lines: it raises `Unexpected format [<line>]s` on the first malformed line, returns the ip of the first `us-west-1` line, or returns None |
| `RunCluster.SelectExpId` | acorn/test/AcornTest/run-cluster.py:45-53 | no argument gives the timestamp, one argument gives that argument, and more give `Usage: <argv[0]>` with exit status 1 |

## Left out

- Cluster and session construction, `connect`, the metadata printout and `Close` (Cass.java:34-56, 112-117) are driver and network plumbing. The session is a parameter of the `Cass` constructor.
- The `Cons.MT` timing scopes, the dot-printing and all other console output are left out. In `CreateSchema` and `WaitForSchemaCreation` only the log line printed before a rethrow is dropped; the rethrow itself is modelled.
- `Thread.sleep(100)` and `InterruptedException` are timing and concurrency concerns. A retry is modelled as consuming the next scripted reply.
- The count printed in the `system.local` error message calls `rs.all()` a second time and depends on driver behaviour. The model carries the count of the first call.
- The accessor `LocalDC()` (Cass.java:119-121) only returns `_local_dc`, which the model exposes as a field.
- The commented-out code at Cass.java:207-425 is dead.
- `Conf.java` is not part of this model. The experiment id it supplies is a parameter of `Init`.
- In `run-cluster.py`, rsync, `parallel-ssh`, `_RunSubp`, `mkdir`/`more`, `AcornUtil.GenHostfiles` and the `open()` of the map file are shell, SSH, foreign-module and file I/O plumbing. `datetime.utcnow().strftime(...)` is nondeterministic, so the formatted timestamp is a parameter.
- `Exhausted` has no counterpart in the source. It marks where a finite script ends a loop that the real client would keep running.
- Cass.Cass.CreateSchema: requires `_local_dc`, `_remote_dcs` and `_ks_name` to be set. The source performs no check, but `Init` exits the process unless it succeeds, so they are set whenever it runs.
- Cass.Cass.WaitForSchemaCreation: requires `_ks_name` to be set, for the same reason.
- RunCluster.SelectExpId: requires a non-empty `argv`, because `sys.argv` always holds the script path first.
