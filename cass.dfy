/** The run and schema setup of the FetchOnDemand test client (class Cass):
    keyspace naming, discovery of the local and remote datacenters, the
    CREATE KEYSPACE / CREATE TABLE statements and the wait for the table to
    become visible at LOCAL_ONE.

    The Cassandra driver is replaced by a Session whose replies are scripted
    in advance: every execute consumes the next reply of the script, in the
    order the statements are issued. Where the source waits forever, a
    script that runs out yields the fault Exhausted. */
module Cass {
  import opened Common

  /** The consistency level a statement carries; Default is the session's own. */
  datatype Consistency = Default | All | LocalOne

  datatype Statement = Statement(query: string, consistency: Consistency)

  /** A row of system.local or system.peers, reduced to its data_center column. */
  datatype Row = Row(dataCenter: string)

  /** The driver's answer to one execute: a result set, or an exception.
      The text of an InvalidQuery is what the exception's toString() gives. */
  datatype Reply =
    | Rows(rows: seq<Row>)
    | InvalidQuery(text: string)
    | OtherDriverError(text: string)

  datatype Fault =
    | UnexpectedRowCount(count: nat)  // the RuntimeException of the system.local check
    | Thrown(error: Reply)            // a driver exception that propagates to the caller
    | Exhausted                       // the script ran out where the source would keep waiting

  datatype Outcome = Ok | Err(fault: Fault)

  const LocalQuery := Statement("select data_center from system.local;", Default)
  const PeersQuery := Statement("select data_center from system.peers;", Default)
  const KeyspacePrefix := "partial_rep_test_"
  const TableName := "t0"
  const UnconfiguredTable := "unconfigured table"

  /** What an execute whose reply is `reply` does to its caller: a result set
      (of any size) returns normally, an exception propagates. */
  function Completion(reply: Option<Reply>): Outcome
  {
    match reply
    case None => Err(Exhausted)
    case Some(Rows(_)) => Ok
    case Some(e) => Err(Thrown(e))
  }

  // ---------------------------------------------------------------------
  // Names

  /** Replaces every '-' by '_' (Java's String.replace("-", "_")). */
  function Sanitize(id: string): (r: string)
    ensures |r| == |id|
    ensures forall i :: 0 <= i < |id| ==> r[i] == (if id[i] == '-' then '_' else id[i])
  {
    if id == [] then [] else [if id[0] == '-' then '_' else id[0]] + Sanitize(id[1..])
  }

  /** The keyspace of the run with experiment id `expId`. */
  function KeyspaceName(expId: string): (ks: string)
    ensures |ks| == |KeyspacePrefix| + |expId|
    ensures ks[..|KeyspacePrefix|] == KeyspacePrefix
    ensures forall i :: 0 <= i < |expId| ==>
      ks[|KeyspacePrefix| + i] == (if expId[i] == '-' then '_' else expId[i])
    ensures '-' !in ks
  {
    var ks := KeyspacePrefix + Sanitize(expId);
    assert forall i :: 0 <= i < |ks| ==> ks[i] != '-' by {
      forall i | 0 <= i < |ks| ensures ks[i] != '-' {
        if i >= |KeyspacePrefix| {
          assert ks[i] == Sanitize(expId)[i - |KeyspacePrefix|];
        }
      }
    }
    ks
  }

  /** Sanitizing leaves an id alone exactly when it has no '-'. */
  lemma SanitizeFixedPoint(id: string)
    ensures Sanitize(id) == id <==> '-' !in id
  {
    if '-' in id {
      var i :| 0 <= i < |id| && id[i] == '-';
      assert Sanitize(id)[i] != id[i];
    }
  }

  /** Sanitizing is not injective: two ids differing only in '-' versus '_'
      name the same keyspace. */
  lemma SanitizeMergesIds()
    ensures "a-b" != "a_b" && KeyspaceName("a-b") == KeyspaceName("a_b")
  {
    assert Sanitize("a-b") == "a_b";
    assert Sanitize("a_b") == "a_b";
  }

  // ---------------------------------------------------------------------
  // Statements of CreateSchema and WaitForSchemaCreation

  const EntryHead := ", '"
  const EntryTail := "' : 1"

  /** One datacenter's part of the replication map: the DC with count 1. */
  function Entry(dc: string): string
  {
    EntryHead + dc + EntryTail
  }

  /** The datacenter part of the replication map, in list order. */
  function Entries(dcs: seq<string>): string
  {
    if dcs == [] then "" else Entry(dcs[0]) + Entries(dcs[1..])
  }

  /** Appending one DC to the list appends its entry to the clause: what the
      StringBuilder loop relies on. */
  lemma {:induction false} EntriesSnoc(dcs: seq<string>, dc: string)
    ensures Entries(dcs + [dc]) == Entries(dcs) + Entry(dc)
  {
    if dcs == [] {
      assert [] + [dc] == [dc];
      assert Entries([dc]) == Entry(dc) + Entries([]);
    } else {
      assert (dcs + [dc])[1..] == dcs[1..] + [dc];
      EntriesSnoc(dcs[1..], dc);
    }
  }

  function KeyspaceStatement(ks: string, dcs: seq<string>): Statement
  {
    Statement("CREATE KEYSPACE " + ks + " WITH replication = { 'class' : 'NetworkTopologyStrategy'"
              + Entries(dcs) + "};", All)
  }

  /** The table t0: obj_id int is the sole primary key, user and topic are text. */
  function TableStatement(ks: string): Statement
  {
    Statement("CREATE TABLE " + ks + "." + TableName
              + " (obj_id int, user text, topic text, PRIMARY KEY (obj_id));", All)
  }

  function SchemaReadStatement(ks: string): Statement
  {
    Statement("select obj_id from " + ks + "." + TableName, LocalOne)
  }

  /** Reads a datacenter part of a replication map back into its DC list;
      an entry must carry count 1. Whatever it accepts is exactly the
      serialisation of what it returns. */
  function ParseEntries(s: string): (r: Option<seq<string>>)
    ensures r.Some? ==> Entries(r.value) == s
    ensures r.Some? ==> forall d :: d in r.value ==> '\'' !in d
    decreases |s|
  {
    if s == [] then Some([])
    else if !(EntryHead <= s) then None
    else
      var rest := s[|EntryHead|..];
      var k := IndexOf(rest, '\'');
      if !(EntryTail <= rest[k..]) then None
      else
        match ParseEntries(rest[k + |EntryTail|..])
        case None => None
        case Some(dcs) =>
          EntryAtFront(s, k);
          Some([rest[..k]] + dcs)
  }

  /** A string that ParseEntries accepts one entry of begins with that entry. */
  lemma EntryAtFront(s: string, k: nat)
    requires EntryHead <= s && k == IndexOf(s[|EntryHead|..], '\'')
    requires EntryTail <= s[|EntryHead|..][k..]
    ensures s == Entry(s[|EntryHead|..][..k]) + s[|EntryHead|..][k + |EntryTail|..]
    ensures '\'' !in s[|EntryHead|..][..k]
  {
    var rest := s[|EntryHead|..];
    var d, after := rest[..k], rest[k + |EntryTail|..];
    SplitAt(s, 0, EntryHead);
    SplitAt(rest, k, EntryTail);
    Regroup(EntryHead, d, EntryTail, after);
    forall j | 0 <= j < |d| ensures d[j] != '\'' {
      assert d[j] == rest[j];
    }
  }

  /** Every DC list whose names have no quote comes back from its replication
      clause unchanged: each DC appears once, in order, with count 1. */
  lemma {:induction false} ParseEntriesOfEntries(dcs: seq<string>)
    requires forall d :: d in dcs ==> '\'' !in d
    ensures ParseEntries(Entries(dcs)) == Some(dcs)
  {
    if dcs != [] {
      ParseEntriesOfEntries(dcs[1..]);
      ParseEntryFront(dcs[0], Entries(dcs[1..]));
      assert [dcs[0]] + dcs[1..] == dcs;
    }
  }

  /** ParseEntries reads a quote-free DC's entry off the front of a clause. */
  lemma ParseEntryFront(d: string, tail: string)
    requires '\'' !in d
    ensures ParseEntries(Entry(d) + tail) ==
      match ParseEntries(tail)
      case None => None
      case Some(dcs) => Some([d] + dcs)
  {
    var s := Entry(d) + tail;
    assert s == EntryHead + (d + EntryTail + tail);
    var rest := s[|EntryHead|..];
    assert rest == d + EntryTail + tail;
    assert IndexOf(rest, '\'') == |d| by {
      assert rest[|d|] == '\'';
      assert forall j :: 0 <= j < |d| ==> rest[j] == d[j];
    }
    assert rest[|d|..] == EntryTail + tail;
    assert rest[..|d|] == d;
    assert rest[|d| + |EntryTail|..] == tail;
  }

  // ---------------------------------------------------------------------
  // The two polling loops, as functions of the reply script

  /** The two while (true) loops of the source. */
  datatype Poll = PeerPoll | SchemaPoll

  /** Java's String.contains: `t` occurs somewhere in `s`. */
  predicate Contains(s: string, t: string)
  {
    exists i :: 0 <= i <= |s| && t <= s[i..]
  }

  /** The one failure of the schema read that is retried. */
  predicate Retryable(r: Reply)
  {
    r.InvalidQuery? && Contains(r.text, UnconfiguredTable)
  }

  /** Whether `r` ends the loop `p`: the peer poll ends on exactly one row or
      on an exception; the schema read ends on anything but a retryable error. */
  predicate Ends(p: Poll, r: Reply)
  {
    match p
    case PeerPoll => !(r.Rows? && |r.rows| != 1)
    case SchemaPoll => !Retryable(r)
  }

  /** Index of the reply that ends loop `p`, or |replies| if none does. */
  function FirstEnd(p: Poll, replies: seq<Reply>): (k: nat)
    ensures k <= |replies|
    ensures k < |replies| ==> Ends(p, replies[k])
    ensures forall j :: 0 <= j < k ==> !Ends(p, replies[j])
  {
    if replies == [] || Ends(p, replies[0]) then 0 else 1 + FirstEnd(p, replies[1..])
  }

  /** Replies that do not end the loop are skipped one by one. */
  lemma {:induction false} FirstEndSkips(p: Poll, prefix: seq<Reply>, rest: seq<Reply>)
    requires forall j :: 0 <= j < |prefix| ==> !Ends(p, prefix[j])
    ensures FirstEnd(p, prefix + rest) == |prefix| + FirstEnd(p, rest)
  {
    if prefix != [] {
      assert (prefix + rest)[0] == prefix[0];
      assert (prefix + rest)[1..] == prefix[1..] + rest;
      assert !Ends(p, prefix[0]);
      FirstEndSkips(p, prefix[1..], rest);
      assert FirstEnd(p, prefix + rest) == 1 + FirstEnd(p, prefix[1..] + rest);
    } else {
      assert prefix + rest == rest;
    }
  }

  /** The data_center values of `rows`, in order. */
  function DataCenters(rows: seq<Row>): (dcs: seq<string>)
    ensures |dcs| == |rows|
    ensures forall i :: 0 <= i < |rows| ==> dcs[i] == rows[i].dataCenter
  {
    if rows == [] then [] else [rows[0].dataCenter] + DataCenters(rows[1..])
  }

  /** The effect of _WaitUntilYouSee2DCs: its outcome, the values it assigns
      to _local_dc and _remote_dcs (None: left as they were) and how many
      times it polled system.peers. */
  datatype Discovery = Discovery(outcome: Outcome, localDc: Option<string>,
                                 remoteDcs: Option<seq<string>>, polls: nat)

  function Discover(script: seq<Reply>): Discovery
  {
    if script == [] then Discovery(Err(Exhausted), None, None, 0)
    else match script[0]
      case Rows(rows) =>
        if |rows| != 1 then Discovery(Err(UnexpectedRowCount(|rows|)), None, None, 0)
        else AfterLocal(rows[0].dataCenter, script[1..])
      case _ => Discovery(Err(Thrown(script[0])), None, None, 0)
  }

  /** What the discovery promises: the local DC is that of the one row of
      system.local (any other count fails at once), the last peer poll is the
      first one that ends the loop, every peer poll before it returned a
      number of rows other than one, and discovery succeeds exactly when the
      last poll has one row, whose DC is then the one remote DC. */
  lemma DiscoverSpec(script: seq<Reply>)
    ensures var d := Discover(script);
      && d.polls <= |script|
      && (d.localDc.Some? <==> d.polls > 0)
      && (d.localDc.Some? <==> script != [] && script[0].Rows? && |script[0].rows| == 1)
      && (d.localDc.Some? ==> d.localDc.value == script[0].rows[0].dataCenter)
      && (script != [] && script[0].Rows? && |script[0].rows| != 1 ==>
            d.outcome == Err(UnexpectedRowCount(|script[0].rows|)))
      && (forall j :: 1 <= j < d.polls ==> script[j].Rows? && |script[j].rows| != 1)
      && (d.polls > 0 ==> d.polls == FirstEnd(PeerPoll, script[1..]) + 1)
      && (0 < d.polls < |script| ==> Ends(PeerPoll, script[d.polls]))
      && (0 < d.polls < |script| && script[d.polls].Rows? ==> d.outcome.Ok?)
      && (script == [] ==> d.outcome == Err(Exhausted))
      && (script != [] && !script[0].Rows? ==> d.outcome == Err(Thrown(script[0])))
      && (d.outcome.Ok? <==> d.remoteDcs.Some?)
      && (d.outcome.Ok? ==>
            && 0 < d.polls < |script| && script[d.polls].Rows? && |script[d.polls].rows| == 1
            && d.remoteDcs == Some(DataCenters(script[d.polls].rows)) && |d.remoteDcs.value| == 1)
      && (0 < d.polls < |script| && !script[d.polls].Rows? ==> d.outcome == Err(Thrown(script[d.polls])))
      && (0 < d.polls == |script| ==> d.outcome == Err(Exhausted))
  {
    if script != [] && script[0].Rows? && |script[0].rows| == 1 {
      var peers := script[1..];
      var k := FirstEnd(PeerPoll, peers);
      assert forall j :: 1 <= j < k + 1 ==> script[j] == peers[j - 1];
    }
  }

  /** The part of Discover after system.local gave the one row of `local`:
      polling system.peers until a poll ends the loop. */
  function AfterLocal(local: string, peers: seq<Reply>): Discovery
  {
    var k := FirstEnd(PeerPoll, peers);
    if k == |peers| then Discovery(Err(Exhausted), Some(local), None, k + 1)
    else if peers[k].Rows? then Discovery(Ok, Some(local), Some(DataCenters(peers[k].rows)), k + 1)
    else Discovery(Err(Thrown(peers[k])), Some(local), None, k + 1)
  }

  /** The replies of a list of polls that return row lists. */
  function RowReplies(polls: seq<seq<Row>>): (r: seq<Reply>)
    ensures |r| == |polls|
    ensures forall i :: 0 <= i < |polls| ==> r[i] == Rows(polls[i])
  {
    seq(|polls|, i requires 0 <= i < |polls| => Rows(polls[i]))
  }

  /** Polls with zero or several rows only cause another poll; the remote DCs
      are those of the first poll with exactly one row, whatever came before
      and whatever is left in the script. */
  lemma PeerPollSupersedes(local: Row, earlier: seq<seq<Row>>, last: seq<Row>, rest: seq<Reply>)
    requires forall i :: 0 <= i < |earlier| ==> |earlier[i]| != 1
    requires |last| == 1
    ensures Discover([Rows([local])] + RowReplies(earlier) + [Rows(last)] + rest)
         == Discovery(Ok, Some(local.dataCenter), Some(DataCenters(last)), |earlier| + 1)
  {
    var polls, tail := RowReplies(earlier), [Rows(last)] + rest;
    var peers := polls + tail;
    assert FirstEnd(PeerPoll, peers) == |earlier| && peers[|earlier|] == Rows(last) by {
      forall j | 0 <= j < |polls| ensures !Ends(PeerPoll, polls[j]) {
        assert polls[j] == Rows(earlier[j]);
      }
      FirstEndSkips(PeerPoll, polls, tail);
      assert FirstEnd(PeerPoll, tail) == 0;
    }
    DiscoverAfterLocal(local, peers);
    assert [Rows([local])] + polls + [Rows(last)] + rest == [Rows([local])] + peers by {
      Regroup([Rows([local])], polls, [Rows(last)], rest);
    }
  }

  /** Once system.local has given one row, the first peer poll with exactly
      one row decides the remote DCs. */
  lemma DiscoverAfterLocal(local: Row, peers: seq<Reply>)
    requires FirstEnd(PeerPoll, peers) < |peers| && peers[FirstEnd(PeerPoll, peers)].Rows?
    ensures Discover([Rows([local])] + peers) == Discovery(Ok, Some(local.dataCenter),
      Some(DataCenters(peers[FirstEnd(PeerPoll, peers)].rows)), FirstEnd(PeerPoll, peers) + 1)
  {
    var script := [Rows([local])] + peers;
    assert script[0] == Rows([local]) && script[1..] == peers;
    assert Discover(script) == AfterLocal(local.dataCenter, peers);
  }

  /** The effect of WaitForSchemaCreation: its outcome and how many reads it
      issued. */
  datatype Convergence = Convergence(outcome: Outcome, attempts: nat)

  function AwaitSchema(script: seq<Reply>): (c: Convergence)
    ensures 1 <= c.attempts <= |script| + 1
    ensures forall j :: 0 <= j < c.attempts - 1 ==> Retryable(script[j])
    ensures c.attempts <= |script| ==>
      !Retryable(script[c.attempts - 1]) && c.outcome == Completion(Some(script[c.attempts - 1]))
    ensures c.attempts == |script| + 1 ==> c.outcome == Err(Exhausted)
  {
    var k := FirstEnd(SchemaPoll, script);
    Convergence(if k == |script| then Err(Exhausted) else Completion(Some(script[k])), k + 1)
  }

  /** N "unconfigured table" errors followed by a result set: N retries, then
      success, N + 1 reads in all. */
  lemma SchemaVisibleAfterRetries(retries: seq<Reply>, rows: seq<Row>, rest: seq<Reply>)
    requires forall i :: 0 <= i < |retries| ==> Retryable(retries[i])
    ensures AwaitSchema(retries + [Rows(rows)] + rest) == Convergence(Ok, |retries| + 1)
  {
    var script := retries + [Rows(rows)] + rest;
    assert script == retries + ([Rows(rows)] + rest);
    FirstEndSkips(SchemaPoll, retries, [Rows(rows)] + rest);
    assert script[|retries|] == Rows(rows);
  }

  /** Any other error fails the wait at once, spending one read. */
  lemma SchemaOtherErrorIsFatal(e: Reply, rest: seq<Reply>)
    requires !e.Rows? && !Retryable(e)
    ensures AwaitSchema([e] + rest) == Convergence(Err(Thrown(e)), 1)
  {
    assert ([e] + rest)[0] == e;
  }

  // ---------------------------------------------------------------------
  // The driver and the class

  /** The cluster session: the replies still to come and every statement
      issued so far, in order. */
  class Session {
    var pending: seq<Reply>
    var issued: seq<Statement>

    constructor (script: seq<Reply>)
      ensures pending == script && issued == []
    {
      pending := script;
      issued := [];
    }

    /** Issues `s` and takes the next reply; None when the script is used up. */
    method Execute(s: Statement) returns (reply: Option<Reply>)
      modifies this
      ensures issued == old(issued) + [s]
      ensures old(pending) == [] ==> reply == None && pending == []
      ensures old(pending) != [] ==> reply == Some(old(pending)[0]) && pending == old(pending)[1..]
    {
      issued := issued + [s];
      if pending == [] {
        reply := None;
      } else {
        reply := Some(pending[0]);
        pending := pending[1..];
      }
    }
  }

  /** The static state of the source's Cass class; None stands for null. */
  class Cass {
    const sess: Session
    var localDc: Option<string>
    var remoteDcs: Option<seq<string>>
    var ksName: Option<string>
    var ksNameAttrPop: Option<string>
    var ksNameObjLoc: Option<string>

    constructor (sess: Session)
      ensures this.sess == sess
      ensures localDc == None && remoteDcs == None
      ensures ksName == None && ksNameAttrPop == None && ksNameObjLoc == None
    {
      this.sess := sess;
      localDc, remoteDcs := None, None;
      ksName, ksNameAttrPop, ksNameObjLoc := None, None, None;
    }

    /** Discovers the DCs, then derives the names from the experiment id.
        An Err outcome is where the source prints the exception and exits
        with status 1. */
    method Init(expId: string) returns (r: Outcome)
      modifies this, sess
      ensures var d := Discover(old(sess.pending));
        && r == d.outcome
        && localDc == (if d.localDc.Some? then d.localDc else old(localDc))
        && remoteDcs == (if d.remoteDcs.Some? then d.remoteDcs else old(remoteDcs))
        && sess.issued == old(sess.issued) + [LocalQuery] + seq(d.polls, _ => PeersQuery)
        && sess.pending == old(sess.pending)[Min(d.polls + 1, |old(sess.pending)|)..]
      ensures r.Ok? ==>
        && ksName == Some(KeyspaceName(expId))
        && ksNameAttrPop == Some(KeyspaceName(expId) + "_attr_pop")
        && ksNameObjLoc == Some(KeyspaceName(expId) + "_obj_loc")
      ensures r.Err? ==>
        ksName == old(ksName) && ksNameAttrPop == old(ksNameAttrPop) && ksNameObjLoc == old(ksNameObjLoc)
    {
      r := WaitUntilYouSee2DCs();
      if r.Err? {
        return;
      }
      var ks := KeyspaceName(expId);
      ksName := Some(ks);
      ksNameAttrPop := Some(ks + "_attr_pop");
      ksNameObjLoc := Some(ks + "_obj_loc");
    }

    /** Reads the local DC from system.local, then polls system.peers until a
        poll returns exactly one row, whose DCs become the remote DCs. */
    method WaitUntilYouSee2DCs() returns (r: Outcome)
      modifies this`localDc, this`remoteDcs, sess
      ensures var d := Discover(old(sess.pending));
        && r == d.outcome
        && localDc == (if d.localDc.Some? then d.localDc else old(localDc))
        && remoteDcs == (if d.remoteDcs.Some? then d.remoteDcs else old(remoteDcs))
        && sess.issued == old(sess.issued) + [LocalQuery] + seq(d.polls, _ => PeersQuery)
        && sess.pending == old(sess.pending)[Min(d.polls + 1, |old(sess.pending)|)..]
    {
      ghost var script := sess.pending;
      var reply := sess.Execute(LocalQuery);
      if reply.None? {
        return Err(Exhausted);
      }
      if !reply.value.Rows? {
        return Err(Thrown(reply.value));
      }
      var rsAll := reply.value.rows;
      if |rsAll| != 1 {
        return Err(UnexpectedRowCount(|rsAll|));
      }
      localDc := Some(rsAll[0].dataCenter);

      ghost var peers := sess.pending;
      assert peers == script[1..];
      var polls: nat := 0;
      while true
        invariant polls <= |peers| && sess.pending == peers[polls..]
        invariant forall j :: 0 <= j < polls ==> !Ends(PeerPoll, peers[j])
        invariant sess.issued == old(sess.issued) + [LocalQuery] + seq(polls, _ => PeersQuery)
        invariant localDc == Some(script[0].rows[0].dataCenter) && remoteDcs == old(remoteDcs)
        decreases |sess.pending|
      {
        reply := sess.Execute(PeersQuery);
        assert seq(polls, _ => PeersQuery) + [PeersQuery] == seq(polls + 1, _ => PeersQuery);
        polls := polls + 1;
        if reply.None? {
          return Err(Exhausted);
        }
        if !reply.value.Rows? {
          return Err(Thrown(reply.value));
        }
        rsAll := reply.value.rows;
        if |rsAll| == 1 {
          break;
        }
      }
      assert FirstEnd(PeerPoll, peers) == polls - 1;
      label Polled:

      var dcs: seq<string> := [];
      for i := 0 to |rsAll|
        invariant |dcs| == i
        invariant forall j :: 0 <= j < i ==> dcs[j] == rsAll[j].dataCenter
        invariant sess.pending == old@Polled(sess.pending) && sess.issued == old@Polled(sess.issued)
        invariant localDc == old@Polled(localDc) && remoteDcs == old(remoteDcs)
      {
        dcs := dcs + [rsAll[i].dataCenter];
      }
      assert dcs == DataCenters(rsAll);
      assert sess.pending == script[polls + 1..];
      remoteDcs := Some(dcs);
      r := Ok;
    }

    /** Creates the run's keyspace, replicated once in the local DC and once
        in each remote DC, and then its table, both at consistency ALL. The
        table statement is issued only if the keyspace statement succeeded.
        Init exits the process unless it succeeds, so by the time this runs
        the three fields are set. */
    method CreateSchema() returns (r: Outcome)
      requires localDc.Some? && remoteDcs.Some? && ksName.Some?
      modifies sess
      ensures var ks := KeyspaceStatement(ksName.value, [localDc.value] + remoteDcs.value);
        var script := old(sess.pending);
        var first := Completion(if script == [] then None else Some(script[0]));
        if first.Ok? then
          && r == Completion(if |script| < 2 then None else Some(script[1]))
          && sess.issued == old(sess.issued) + [ks, TableStatement(ksName.value)]
          && sess.pending == script[Min(2, |script|)..]
        else
          && r == first
          && sess.issued == old(sess.issued) + [ks]
          && sess.pending == script[Min(1, |script|)..]
    {
      var qDcs := Entry(localDc.value);
      var remotes := remoteDcs.value;
      for i := 0 to |remotes|
        invariant qDcs == Entries([localDc.value] + remotes[..i])
        invariant sess.pending == old(sess.pending) && sess.issued == old(sess.issued)
      {
        EntriesSnoc([localDc.value] + remotes[..i], remotes[i]);
        assert [localDc.value] + remotes[..i + 1] == [localDc.value] + remotes[..i] + [remotes[i]];
        qDcs := qDcs + Entry(remotes[i]);
      }
      assert remotes[..|remotes|] == remotes;

      var s := Statement("CREATE KEYSPACE " + ksName.value
                         + " WITH replication = { 'class' : 'NetworkTopologyStrategy'" + qDcs + "};", All);
      var reply := sess.Execute(s);
      r := Completion(reply);
      if r.Err? {
        return;
      }
      s := TableStatement(ksName.value);
      reply := sess.Execute(s);
      r := Completion(reply);
    }

    /** Reads the new table at LOCAL_ONE until a read succeeds, retrying only
        on an InvalidQueryException whose text contains "unconfigured table";
        any other exception propagates at once. Init exits the process unless
        it succeeds, so the keyspace name is set. */
    method WaitForSchemaCreation() returns (r: Outcome)
      requires ksName.Some?
      modifies sess
      ensures var c, read := AwaitSchema(old(sess.pending)), SchemaReadStatement(ksName.value);
        && r == c.outcome
        && sess.issued == old(sess.issued) + seq(c.attempts, _ => read)
        && sess.pending == old(sess.pending)[Min(c.attempts, |old(sess.pending)|)..]
    {
      var s := SchemaReadStatement(ksName.value);
      ghost var script := sess.pending;
      ghost var attempts: nat := 0;
      while true
        invariant attempts <= |script| && sess.pending == script[attempts..]
        invariant forall j :: 0 <= j < attempts ==> Retryable(script[j])
        invariant sess.issued == old(sess.issued) + seq(attempts, _ => s)
        decreases |sess.pending|
      {
        var reply := sess.Execute(s);
        assert seq(attempts, _ => s) + [s] == seq(attempts + 1, _ => s);
        attempts := attempts + 1;
        if reply.None? {
          assert FirstEnd(SchemaPoll, script) == |script|;
          return Err(Exhausted);
        }
        match reply.value {
          case Rows(_) =>
            assert FirstEnd(SchemaPoll, script) == attempts - 1;
            return Ok;
          case InvalidQuery(text) =>
            if !Contains(text, UnconfiguredTable) {
              assert FirstEnd(SchemaPoll, script) == attempts - 1;
              return Err(Thrown(reply.value));
            }
          case OtherDriverError(_) =>
            assert FirstEnd(SchemaPoll, script) == attempts - 1;
            return Err(Thrown(reply.value));
        }
      }
    }
  }
}
