/**
 * The resolution logic of DNSLookupService: getResults, parseCName,
 * addToCache, retrieveResultsFromServer and queryNextLevel.
 *
 * The network is an oracle: respond(server, node) is what
 * decodeAndCacheResponse returns for the query about node sent to server,
 * None standing for its null (an ID mismatch or an error RCODE). As the
 * decoder does, every record of a non-null reply is added to the cache.
 * Servers are named by their address text. The state threaded through the
 * calls is the cache and the log of queries sent so far.
 *
 * The source bounds CNAME chasing by the indirection level but not the
 * delegation chain, and name-server lookups restart at level 0; fuel bounds
 * the nesting of re-entries and runs out as Failure(OutOfFuel). A query
 * whose question overflows its buffer is not sent: the exception escapes
 * retrieveResultsFromServer's catch and every enclosing call, and the
 * lookup fails as Failure(QuestionOverflow); queries sent before it stay
 * in the log.
 */
module LookupService {
  import opened Wrappers
  import opened Records
  import opened Cache
  import opened Octets
  import opened Response
  import QueryCodec = Query

  /** MAX_INDIRECTION_LEVEL. */
  const MaxIndirectionLevel: nat := 10

  datatype Query = Query(server: string, node: Node)

  datatype Env = Env(root: string, respond: (string, Node) -> Option<seq<Record>>)

  datatype State = State(cache: Cache, sent: seq<Query>)

  /** The result set of a lookup and the state after it. */
  datatype Answer = Answer(records: seq<Record>, st: State)

  datatype ResolveError = OutOfFuel | QuestionOverflow

  /** What the resolver may do to its state: send more queries, and add to the cache without losing anything. */
  ghost predicate Grows(st: State, st': State)
  {
    st.sent <= st'.sent && Retains(st.cache, st'.cache) && (Wellformed(st.cache) ==> Wellformed(st'.cache))
  }

  lemma GrowsTransitive(st1: State, st2: State, st3: State)
    requires Grows(st1, st2) && Grows(st2, st3)
    ensures Grows(st1, st3)
  {
    forall n
      ensures ValuesAt(st1.cache, n) <= ValuesAt(st3.cache, n)
    {
      assert ValuesAt(st1.cache, n) <= ValuesAt(st2.cache, n);
    }
  }

  /** The copy addToCache files: the original node's host and type, the result's TTL and InetAddress. */
  function Rekey(node: Node, x: Record): (r: Record)
    ensures r.node == node && r.ttl == x.ttl
    ensures x.value.Address? ==> r.value == x.value
    ensures !x.value.Address? ==> r.value == NullAddress
  {
    Record(node, x.ttl, if x.value.Address? then x.value else NullAddress)
  }

  function RekeyAll(node: Node, results: seq<Record>): (out: seq<Record>)
    ensures |out| == |results|
    ensures forall i :: 0 <= i < |results| ==> out[i] == Rekey(node, results[i])
  {
    if |results| == 0 then [] else [Rekey(node, results[0])] + RekeyAll(node, results[1..])
  }

  /**
   * addToCache(node, results): one record per result, filed under node,
   * keeping that result's TTL and address (NullAddress where it has none).
   */
  function AddToCache(node: Node, results: seq<Record>, c: Cache): (c': Cache)
    ensures ValuesAt(c', node) == ValuesAt(c, node) + set x | x in results :: Rekey(node, x).value
    ensures forall n :: n != node ==> Get(c', n) == Get(c, n)
    ensures Retains(c, c') && (Wellformed(c) ==> Wellformed(c'))
  {
    AddToCacheFacts(node, results, c);
    AddAll(c, RekeyAll(node, results))
  }

  lemma AddToCacheFacts(node: Node, results: seq<Record>, c: Cache)
    ensures var c' := AddAll(c, RekeyAll(node, results));
            && ValuesAt(c', node) == ValuesAt(c, node) + (set x | x in results :: Rekey(node, x).value)
            && (forall n :: n != node ==> Get(c', n) == Get(c, n))
            && Retains(c, c') && (Wellformed(c) ==> Wellformed(c'))
  {
    var rekeyed := RekeyAll(node, results);
    AddAllValues(c, rekeyed, node);
    forall n | n != node
      ensures Get(AddAll(c, rekeyed), n) == Get(c, n)
    {
      AddAllElsewhere(c, rekeyed, n);
    }
    RekeyedValues(node, results);
    AddAllKeeps(c, rekeyed);
  }

  /** Adding a batch loses nothing and keeps a well-formed cache well formed. */
  lemma AddAllKeeps(c: Cache, rs: seq<Record>)
    ensures Retains(c, AddAll(c, rs)) && (Wellformed(c) ==> Wellformed(AddAll(c, rs)))
  {
    AddAllRetains(c, rs);
    if Wellformed(c) {
      AddAllPreserves(c, rs);
    }
  }

  lemma RekeyedValues(node: Node, results: seq<Record>)
    ensures BatchValues(RekeyAll(node, results), node) == set x | x in results :: Rekey(node, x).value
  {
    var rekeyed := RekeyAll(node, results);
    forall v | v in BatchValues(rekeyed, node)
      ensures v in set x | x in results :: Rekey(node, x).value
    {
      var y :| y in rekeyed && y.node == node && y.value == v;
      var i :| 0 <= i < |rekeyed| && rekeyed[i] == y;
      assert results[i] in results;
    }
    forall v | v in set x | x in results :: Rekey(node, x).value
      ensures v in BatchValues(rekeyed, node)
    {
      var x :| x in results && Rekey(node, x).value == v;
      var i :| 0 <= i < |results| && results[i] == x;
      assert rekeyed[i] in rekeyed;
    }
  }

  /** Adding a batch never loses a value, well formed or not. */
  lemma {:induction false} AddAllRetains(c: Cache, rs: seq<Record>)
    ensures Retains(c, AddAll(c, rs))
    decreases |rs|
  {
    if |rs| > 0 {
      var c1 := Add(c, rs[0]);
      AddRetains(c, rs[0]);
      AddAllRetains(c1, rs[1..]);
      forall n
        ensures ValuesAt(c, n) <= ValuesAt(AddAll(c, rs), n)
      {
        assert ValuesAt(c, n) <= ValuesAt(c1, n);
      }
    }
  }

  /** The cache after a reply: every record of a non-null reply is added, a null one changes nothing. */
  function Absorb(c: Cache, reply: Option<seq<Record>>): (c': Cache)
    ensures Retains(c, c') && (Wellformed(c) ==> Wellformed(c'))
    ensures reply.None? ==> c' == c
    ensures reply.Some? ==> forall x :: x in reply.value ==> x.value in ValuesAt(c', x.node)
  {
    match reply
    case None => c
    case Some(rs) =>
      AddAllKeeps(c, rs);
      AddAllStores(c, rs);
      AddAll(c, rs)
  }

  /** Every record of a batch is found under its node afterwards. */
  lemma AddAllStores(c: Cache, rs: seq<Record>)
    ensures forall x :: x in rs ==> x.value in ValuesAt(AddAll(c, rs), x.node)
  {
    forall x | x in rs
      ensures x.value in ValuesAt(AddAll(c, rs), x.node)
    {
      AddAllValues(c, rs, x.node);
      assert x.value in BatchValues(rs, x.node);
    }
  }

  /** The null returned for a mismatched or failed reply is read as the empty set. */
  function Nameservers(reply: Option<seq<Record>>): (ns: seq<Record>)
    ensures reply.None? ==> ns == []
    ensures reply.Some? ==> ns == reply.value
  {
    match reply
    case None => []
    case Some(rs) => rs
  }

  /** The index of the first record satisfying p, if any. */
  function FirstWhere(rs: seq<Record>, p: Record -> bool): (i: Option<nat>)
    ensures i.Some? ==> i.value < |rs| && p(rs[i.value]) && forall j :: 0 <= j < i.value ==> !p(rs[j])
    ensures i.None? ==> forall j :: 0 <= j < |rs| ==> !p(rs[j])
  {
    if |rs| == 0 then None
    else if p(rs[0]) then Some(0)
    else match FirstWhere(rs[1..], p)
      case None => None
      case Some(k) => Some(k + 1)
  }

  /** The first loop of queryNextLevel: the reply answers the node, or redirects it by a CNAME. */
  predicate Settles(node: Node, rr: Record)
  {
    rr.node == node || rr.node.rtype == CNAME
  }

  /** The second loop: an A record that carries an address, a glue record for a name server. */
  predicate IsGlue(rr: Record)
  {
    rr.value.Address? && rr.node.rtype == A
  }

  /** The third loop: a record without an address, a name server to be resolved first. */
  predicate Unresolved(rr: Record)
  {
    !rr.value.Address?
  }

  /**
   * getResults(node, indirectionLevel): nothing beyond the indirection
   * bound; otherwise what the cache or a CNAME chase yields, and failing
   * that, one query to the root server and a second look.
   */
  function GetResults(env: Env, node: Node, level: nat, st: State, fuel: nat): (r: Result<Answer, ResolveError>)
    ensures r.Success? ==> Grows(st, r.value.st)
    ensures level <= MaxIndirectionLevel && r.Success? ==> r.value.records == Get(r.value.st.cache, node)
    ensures level > MaxIndirectionLevel ==> r == Success(Answer([], st))
    ensures level <= MaxIndirectionLevel && |Get(st.cache, node)| > 0 ==> r == Success(Answer(Get(st.cache, node), st))
    decreases fuel, 4, 0
  {
    if level > MaxIndirectionLevel then Success(Answer([], st))
    else
      var first :- ParseCName(env, node, level, st, fuel);
      if |first.records| > 0 then Success(first)
      else
        var st2 :- Retrieve(env, node, env.root, first.st, fuel);
        GrowsTransitive(st, first.st, st2);
        var second :- ParseCName(env, node, level, st2, fuel);
        GrowsTransitive(st, st2, second.st);
        if |second.records| > 0 then Success(second) else Success(Answer([], second.st))
  }

  /**
   * parseCName(node, indirectionLevel): the cached records for node if
   * there are any; otherwise, when the host has cached CNAMEs, the records
   * filed under node after chasing them; otherwise nothing.
   */
  function ParseCName(env: Env, node: Node, level: nat, st: State, fuel: nat): (r: Result<Answer, ResolveError>)
    ensures r.Success? ==> Grows(st, r.value.st)
    ensures r.Success? ==> r.value.records == Get(r.value.st.cache, node)
    decreases fuel, 3, 0
  {
    var cached := Get(st.cache, node);
    if |cached| > 0 then Success(Answer(cached, st))
    else
      var cnames := Get(st.cache, Node(node.host, CNAME));
      if |cnames| == 0 then Success(Answer([], st))
      else
        var st' :- ChaseCNames(env, node, cnames, level, st, fuel);
        Success(Answer(Get(st'.cache, node), st'))
  }

  /**
   * The loop over the CNAMEs: each target is looked up with the original
   * record type, one indirection level above the previous iteration, and
   * its results are filed under the original node.
   */
  /** The state after a CNAME target's lookup: its records filed under the original node as well. */
  function AfterTarget(node: Node, found: Answer): (st: State)
    ensures st.sent == found.st.sent
  {
    found.st.(cache := AddToCache(node, found.records, found.st.cache))
  }

  function ChaseCNames(env: Env, node: Node, cnames: seq<Record>, level: nat, st: State, fuel: nat): (r: Result<State, ResolveError>)
    ensures r.Success? ==> Grows(st, r.value)
    decreases fuel, 2, |cnames|
  {
    if |cnames| == 0 then Success(st)
    else if fuel == 0 then Failure(OutOfFuel)
    else
      var next := level + 1;
      var target := Node(TextOf(cnames[0].value), node.rtype);
      var found :- GetResults(env, target, next, st, fuel - 1);
      var st2 := AfterTarget(node, found);
      GrowsTransitive(st, found.st, st2);
      var rest :- ChaseCNames(env, node, cnames[1..], next, st2, fuel);
      GrowsTransitive(st, st2, rest);
      Success(rest)
  }

  /**
   * retrieveResultsFromServer(node, server): a question too long for its
   * buffer fails before anything is sent; otherwise the query is sent and
   * logged, the reply's records are cached, and the next level is queried
   * with them (with none for a null reply).
   */
  function Retrieve(env: Env, node: Node, server: string, st: State, fuel: nat): (r: Result<State, ResolveError>)
    ensures !QueryCodec.QuestionFits(node.host) ==> r == Failure(QuestionOverflow)
    ensures r.Success? ==> Grows(st, r.value)
    ensures r.Success? ==> |r.value.sent| > |st.sent| && r.value.sent[|st.sent|] == Query(server, node)
    ensures r.Success? && env.respond(server, node).Some? ==>
              forall x :: x in env.respond(server, node).value ==> x.value in ValuesAt(r.value.cache, x.node)
    decreases fuel, 2, 0
  {
    if !QueryCodec.QuestionFits(node.host) then Failure(QuestionOverflow)
    else
      var reply := env.respond(server, node);
      var st1 := State(Absorb(st.cache, reply), st.sent + [Query(server, node)]);
      var st' :- QueryNextLevel(env, node, Nameservers(reply), st1, fuel);
      GrowsTransitive(st, st1, st');
      assert st'.sent[|st.sent|] == st1.sent[|st.sent|];
      assert reply.Some? ==> forall x :: x in reply.value ==> x.value in ValuesAt(st'.cache, x.node) by {
        if reply.Some? {
          forall x | x in reply.value
            ensures x.value in ValuesAt(st'.cache, x.node)
          {
            assert ValuesAt(st1.cache, x.node) <= ValuesAt(st'.cache, x.node);
          }
        }
      }
      Success(st')
  }

  /**
   * queryNextLevel(node, nameservers): stop when the reply settles the node;
   * else ask the first glue address about the node; else resolve the first
   * name server without an address from level 0 and ask its first result's
   * address, if it has one.
   */
  function QueryNextLevel(env: Env, node: Node, ns: seq<Record>, st: State, fuel: nat): (r: Result<State, ResolveError>)
    ensures r.Success? ==> Grows(st, r.value)
    decreases fuel, 1, 0
  {
    if exists i :: 0 <= i < |ns| && Settles(node, ns[i]) then Success(st)
    else match FirstWhere(ns, IsGlue)
      case Some(i) =>
        if fuel == 0 then Failure(OutOfFuel) else Retrieve(env, node, ns[i].value.addr, st, fuel - 1)
      case None =>
        match FirstWhere(ns, Unresolved)
        case None => Success(st)
        case Some(i) =>
          if fuel == 0 then Failure(OutOfFuel)
          else
            var server := Node(TextOf(ns[i].value), A);
            var found :- GetResults(env, server, 0, st, fuel - 1);
            if |found.records| > 0 && found.records[0].value.Address? then
              var st' :- Retrieve(env, node, found.records[0].value.addr, found.st, fuel - 1);
              GrowsTransitive(st, found.st, st');
              Success(st')
            else Success(found.st)
  }

  // ----- properties of the resolver -----

  /** With a well-formed cache, every result of a lookup is a record of the node asked about. */
  lemma ResultsBelongToNode(env: Env, node: Node, level: nat, st: State, fuel: nat)
    requires Wellformed(st.cache)
    ensures var r := GetResults(env, node, level, st, fuel);
            r.Success? ==> forall x :: x in r.value.records ==> x.node == node
  {
    var r := GetResults(env, node, level, st, fuel);
    if r.Success? {
      KeyedGet(r.value.st.cache, node);
    }
  }

  /**
   * A lookup the cache cannot serve, directly or through a CNAME, begins by
   * asking the root server about the node.
   */
  lemma MissAsksRoot(env: Env, node: Node, level: nat, st: State, fuel: nat)
    requires level <= MaxIndirectionLevel
    requires Get(st.cache, node) == [] && Get(st.cache, Node(node.host, CNAME)) == []
    ensures var r := GetResults(env, node, level, st, fuel);
            r.Success? ==> |r.value.st.sent| > |st.sent| && r.value.st.sent[|st.sent|] == Query(env.root, node)
  {
    assert ParseCName(env, node, level, st, fuel) == Success(Answer([], st));
    var r := GetResults(env, node, level, st, fuel);
    if r.Success? {
      var st2 := Retrieve(env, node, env.root, st, fuel).value;
      assert r.value.st == ParseCName(env, node, level, st2, fuel).value.st;
    }
  }

  /**
   * A lookup the cache cannot serve, for a host whose question overflows
   * its buffer, fails with the overflow before any query is sent.
   */
  lemma LongHostFails(env: Env, node: Node, level: nat, st: State, fuel: nat)
    requires level <= MaxIndirectionLevel && !QueryCodec.QuestionFits(node.host)
    requires Get(st.cache, node) == [] && Get(st.cache, Node(node.host, CNAME)) == []
    ensures GetResults(env, node, level, st, fuel) == Failure(QuestionOverflow)
  {
    assert ParseCName(env, node, level, st, fuel) == Success(Answer([], st));
  }

  /** A reply that is null or empty ends the delegation: the query is logged and nothing else happens. */
  lemma NullReplyStops(env: Env, node: Node, server: string, st: State, fuel: nat)
    requires QueryCodec.QuestionFits(node.host)
    requires env.respond(server, node).None? || env.respond(server, node) == Some([])
    ensures var st' := State(st.cache, st.sent + [Query(server, node)]);
            Retrieve(env, node, server, st, fuel) == Success(st')
  {
    assert FirstWhere([], IsGlue).None? && FirstWhere([], Unresolved).None?;
  }

  /** A reply that answers the node or names a CNAME needs no further query. */
  lemma SettledReplyStops(env: Env, node: Node, ns: seq<Record>, st: State, fuel: nat, i: nat)
    requires i < |ns| && Settles(node, ns[i])
    ensures QueryNextLevel(env, node, ns, st, fuel) == Success(st)
  {
  }

  /**
   * Otherwise the first glue record's address is asked about the original
   * node, and the delegation continues from that server alone.
   */
  lemma AsksFirstGlue(env: Env, node: Node, ns: seq<Record>, st: State, fuel: nat, i: nat)
    requires forall j :: 0 <= j < |ns| ==> !Settles(node, ns[j])
    requires i < |ns| && IsGlue(ns[i]) && forall j :: 0 <= j < i ==> !IsGlue(ns[j])
    ensures fuel == 0 ==> QueryNextLevel(env, node, ns, st, fuel) == Failure(OutOfFuel)
    ensures fuel > 0 ==> QueryNextLevel(env, node, ns, st, fuel) == Retrieve(env, node, ns[i].value.addr, st, fuel - 1)
    ensures var r := QueryNextLevel(env, node, ns, st, fuel);
            r.Success? ==> |r.value.sent| > |st.sent| && r.value.sent[|st.sent|] == Query(ns[i].value.addr, node)
  {
    assert FirstWhere(ns, IsGlue) == Some(i);
  }

  /**
   * Without glue, the first name server lacking an address is looked up as
   * an A record from level 0, and only the first address found is asked
   * about the original node.
   */
  lemma ResolvesFirstNameServer(env: Env, node: Node, ns: seq<Record>, st: State, fuel: nat, i: nat)
    requires forall j :: 0 <= j < |ns| ==> !Settles(node, ns[j]) && !IsGlue(ns[j])
    requires i < |ns| && Unresolved(ns[i]) && forall j :: 0 <= j < i ==> !Unresolved(ns[j])
    requires fuel > 0
    ensures var found := GetResults(env, Node(TextOf(ns[i].value), A), 0, st, fuel - 1);
            var r := QueryNextLevel(env, node, ns, st, fuel);
            && (found.Failure? ==> r.Failure?)
            && (found.Success? && r.Success? ==>
                  if |found.value.records| > 0 && found.value.records[0].value.Address? then
                    |r.value.sent| > |found.value.st.sent| &&
                    r.value.sent[|found.value.st.sent|] == Query(found.value.records[0].value.addr, node)
                  else r.value == found.value.st)
  {
    assert FirstWhere(ns, IsGlue).None?;
    assert FirstWhere(ns, Unresolved) == Some(i);
  }

  /** A reply in which every record has an address but none is an A record leads nowhere. */
  lemma NoCandidateStops(env: Env, node: Node, ns: seq<Record>, st: State, fuel: nat)
    requires forall j :: 0 <= j < |ns| ==> !Settles(node, ns[j]) && !IsGlue(ns[j]) && !Unresolved(ns[j])
    ensures QueryNextLevel(env, node, ns, st, fuel) == Success(st)
  {
    assert FirstWhere(ns, IsGlue).None? && FirstWhere(ns, Unresolved).None?;
  }

  /**
   * At the indirection bound CNAMEs are not followed: every target lookup
   * returns nothing at once, so the chase changes neither the cache nor
   * the query log.
   */
  lemma {:induction false} ChaseAtBound(env: Env, node: Node, cnames: seq<Record>, level: nat, st: State, fuel: nat)
    requires level >= MaxIndirectionLevel && fuel > 0
    ensures ChaseCNames(env, node, cnames, level, st, fuel) == Success(st)
    decreases |cnames|
  {
    if |cnames| > 0 {
      var target := Node(TextOf(cnames[0].value), node.rtype);
      assert GetResults(env, target, level + 1, st, fuel - 1) == Success(Answer([], st));
      assert AddAll(st.cache, RekeyAll(node, [])) == st.cache;
      assert st.(cache := st.cache) == st;
      ChaseAtBound(env, node, cnames[1..], level + 1, st, fuel);
    }
  }

  /** How many CNAMEs a chase starting at level follows: one per level left below the bound. */
  function Followed(count: nat, level: nat): (k: nat)
    ensures k <= count
    ensures level >= MaxIndirectionLevel ==> k == 0
    ensures level < MaxIndirectionLevel ==> k == if count < MaxIndirectionLevel - level then count else MaxIndirectionLevel - level
  {
    if level >= MaxIndirectionLevel then 0
    else if count < MaxIndirectionLevel - level then count
    else MaxIndirectionLevel - level
  }

  /**
   * Each CNAME is looked up one level deeper than the one before it, so a
   * chase starting at level follows only the first Followed(|cnames|, level)
   * of them: the rest, past the bound, change nothing.
   */
  lemma {:induction false} ChaseFollowsFirst(env: Env, node: Node, cnames: seq<Record>, level: nat, st: State, fuel: nat)
    requires fuel > 0
    ensures ChaseCNames(env, node, cnames, level, st, fuel)
         == ChaseCNames(env, node, cnames[..Followed(|cnames|, level)], level, st, fuel)
    decreases |cnames|, 1
  {
    if level >= MaxIndirectionLevel {
      ChaseAtBound(env, node, cnames, level, st, fuel);
      assert cnames[..0] == [];
    } else if |cnames| > 0 {
      ChaseFollowsStep(env, node, cnames, level, st, fuel);
    }
  }

  /** The step of ChaseFollowsFirst below the bound: the first CNAME is followed in both chases alike. */
  lemma {:induction false} ChaseFollowsStep(env: Env, node: Node, cnames: seq<Record>, level: nat, st: State, fuel: nat)
    requires fuel > 0 && level < MaxIndirectionLevel && |cnames| > 0
    ensures ChaseCNames(env, node, cnames, level, st, fuel)
         == ChaseCNames(env, node, cnames[..Followed(|cnames|, level)], level, st, fuel)
    decreases |cnames|, 0
  {
    var failed, st2 := FirstStepShared(env, node, cnames, Followed(|cnames|, level), level, st, fuel);
    if failed.None? {
      ChaseFollowsFirst(env, node, cnames[1..], level + 1, st2, fuel);
    }
  }

  lemma FollowedStep(cnames: seq<Record>, level: nat)
    requires level < MaxIndirectionLevel && |cnames| > 0
    ensures Followed(|cnames[1..]|, level + 1) == Followed(|cnames|, level) - 1
  {
  }

  lemma PrefixSteps<T>(s: seq<T>, k: nat)
    requires 0 < k <= |s|
    ensures |s[..k]| > 0 && s[..k][0] == s[0] && s[..k][1..] == s[1..][..k - 1]
  {
  }

  /**
   * A chase and the chase of its first k CNAMEs take the same first step:
   * both fail alike, or both go on one level deeper from the same state.
   */
  lemma FirstStepShared(env: Env, node: Node, cnames: seq<Record>, k: nat, level: nat, st: State, fuel: nat)
    returns (failed: Option<ResolveError>, st2: State)
    requires fuel > 0 && level < MaxIndirectionLevel && |cnames| > 0 && k == Followed(|cnames|, level)
    ensures failed.Some? ==> ChaseCNames(env, node, cnames, level, st, fuel) == Failure(failed.value)
    ensures failed.Some? ==> ChaseCNames(env, node, cnames[..k], level, st, fuel) == Failure(failed.value)
    ensures failed.None? ==> ChaseCNames(env, node, cnames, level, st, fuel) == ChaseCNames(env, node, cnames[1..], level + 1, st2, fuel)
    ensures failed.None? ==>
              ChaseCNames(env, node, cnames[..k], level, st, fuel)
              == ChaseCNames(env, node, cnames[1..][..Followed(|cnames[1..]|, level + 1)], level + 1, st2, fuel)
  {
    FollowedStep(cnames, level);
    var found := GetResults(env, Node(TextOf(cnames[0].value), node.rtype), level + 1, st, fuel - 1);
    ChaseUnfold(env, node, cnames, level, st, fuel, found);
    HeadUnfold(env, node, cnames, k, level, st, fuel, found);
    if found.Success? {
      failed, st2 := None, AfterTarget(node, found.value);
    } else {
      failed, st2 := Some(found.error), st;
    }
  }

  /** ChaseUnfold for the first k CNAMEs of cnames. */
  lemma HeadUnfold(env: Env, node: Node, cnames: seq<Record>, k: nat, level: nat, st: State, fuel: nat, found: Result<Answer, ResolveError>)
    requires 0 < k <= |cnames| && fuel > 0
    requires found == GetResults(env, Node(TextOf(cnames[0].value), node.rtype), level + 1, st, fuel - 1)
    ensures found.Failure? ==> ChaseCNames(env, node, cnames[..k], level, st, fuel) == Failure(found.error)
    ensures found.Success? ==>
              (ChaseCNames(env, node, cnames[..k], level, st, fuel)
               == ChaseCNames(env, node, cnames[1..][..k - 1], level + 1, AfterTarget(node, found.value), fuel))
  {
    PrefixSteps(cnames, k);
    ChaseUnfold(env, node, cnames[..k], level, st, fuel, found);
  }

  /** One step of a chase: the first target's lookup, then the rest one level deeper. */
  lemma ChaseUnfold(env: Env, node: Node, cnames: seq<Record>, level: nat, st: State, fuel: nat, found: Result<Answer, ResolveError>)
    requires |cnames| > 0 && fuel > 0
    requires found == GetResults(env, Node(TextOf(cnames[0].value), node.rtype), level + 1, st, fuel - 1)
    ensures found.Failure? ==> ChaseCNames(env, node, cnames, level, st, fuel) == Failure(found.error)
    ensures found.Success? ==>
              (ChaseCNames(env, node, cnames, level, st, fuel)
               == ChaseCNames(env, node, cnames[1..], level + 1, AfterTarget(node, found.value), fuel))
  {
  }

  /**
   * The level rises with each CNAME: one level below the bound, the first
   * of two cached CNAMEs is followed (from the cache, with the original
   * type) and the second is not, so only the first target's records are
   * filed under the node.
   */
  lemma ChaseLevelRises(env: Env, node: Node, c1: Record, c2: Record, st: State, fuel: nat)
    requires fuel > 0
    requires |Get(st.cache, Node(TextOf(c1.value), node.rtype))| > 0
    ensures var t1 := Node(TextOf(c1.value), node.rtype);
            var c' := AddToCache(node, Get(st.cache, t1), st.cache);
            ChaseCNames(env, node, [c1, c2], MaxIndirectionLevel - 1, st, fuel) == Success(st.(cache := c'))
  {
    var t1 := Node(TextOf(c1.value), node.rtype);
    var level := MaxIndirectionLevel - 1;
    assert GetResults(env, t1, level + 1, st, fuel - 1) == Success(Answer(Get(st.cache, t1), st));
    var st2 := st.(cache := AddToCache(node, Get(st.cache, t1), st.cache));
    assert [c1, c2][1..] == [c2];
    ChaseAtBound(env, node, [c2], level + 1, st2, fuel);
  }

  /**
   * A host cached only as a CNAME to a cached target is answered from the
   * cache without a query: the target's values, looked up with the original
   * type, come back filed under the original node.
   */
  lemma CNameFromCache(env: Env, node: Node, cname: Record, level: nat, st: State, fuel: nat)
    requires level < MaxIndirectionLevel && fuel > 0
    requires Get(st.cache, node) == [] && Get(st.cache, Node(node.host, CNAME)) == [cname]
    requires |Get(st.cache, Node(TextOf(cname.value), node.rtype))| > 0
    ensures var r := ParseCName(env, node, level, st, fuel);
            var target := Get(st.cache, Node(TextOf(cname.value), node.rtype));
            && r.Success? && r.value.st.sent == st.sent
            && r.value.records == Get(r.value.st.cache, node)
            && (set x | x in r.value.records :: x.value) == set x | x in target :: Rekey(node, x).value
  {
    var t := Node(TextOf(cname.value), node.rtype);
    var target := Get(st.cache, t);
    assert GetResults(env, t, level + 1, st, fuel - 1) == Success(Answer(target, st));
    var c' := AddToCache(node, target, st.cache);
    var st2 := st.(cache := c');
    assert ChaseCNames(env, node, [cname], level, st, fuel) == ChaseCNames(env, node, [], level + 1, st2, fuel);
    assert ValuesAt(st.cache, node) == {};
  }

  /**
   * One delegation from an empty cache: the root refers the query to a name
   * server and supplies its glue address; that server answers. Exactly two
   * queries are sent, and the answer is what the lookup returns.
   */
  lemma DelegationViaGlue(env: Env, node: Node, ns: Record, glue: Record, ans: Record, fuel: nat)
    requires fuel > 0 && QueryCodec.QuestionFits(node.host)
    requires !Settles(node, ns) && !IsGlue(ns) && !Settles(node, glue) && IsGlue(glue) && ans.node == node
    requires env.respond(env.root, node) == Some([ns, glue])
    requires env.respond(glue.value.addr, node) == Some([ans])
    ensures var c' := AddAll(AddAll(Empty, [ns, glue]), [ans]);
            GetResults(env, node, 0, State(Empty, []), fuel) ==
              Success(Answer([ans], State(c', [Query(env.root, node), Query(glue.value.addr, node)])))
  {
    var st0 := State(Empty, []);
    var st1 := State(AddAll(Empty, [ns, glue]), [Query(env.root, node)]);
    var st2 := State(AddAll(AddAll(Empty, [ns, glue]), [ans]), [Query(env.root, node), Query(glue.value.addr, node)]);
    assert st1.sent + [Query(glue.value.addr, node)] == st2.sent;
    TwoQueries(env, node, ns, glue, ans, st0, st1, st2, fuel);
    OnlyAnswerFiled(ns, glue, ans);
    LookupAfterRootQuery(env, node, st0, st2, [ans], fuel);
  }

  /** The root query and the query to the glue address are all that is sent. */
  lemma TwoQueries(env: Env, node: Node, ns: Record, glue: Record, ans: Record, st0: State, st1: State, st2: State, fuel: nat)
    requires fuel > 0 && QueryCodec.QuestionFits(node.host)
    requires !Settles(node, ns) && !IsGlue(ns) && !Settles(node, glue) && IsGlue(glue) && ans.node == node
    requires env.respond(env.root, node) == Some([ns, glue])
    requires env.respond(glue.value.addr, node) == Some([ans])
    requires st1 == State(AddAll(st0.cache, [ns, glue]), st0.sent + [Query(env.root, node)])
    requires st2 == State(AddAll(st1.cache, [ans]), st1.sent + [Query(glue.value.addr, node)])
    ensures Retrieve(env, node, env.root, st0, fuel) == Success(st2)
  {
    RootReferral(env, node, ns, glue, glue.value.addr, st0, st1, fuel);
    AnswerFromGlue(env, node, glue.value.addr, ans, st1, st2, fuel - 1);
  }

  /** After a referral and an answer, the answer is all the cache holds for its node. */
  lemma OnlyAnswerFiled(ns: Record, glue: Record, ans: Record)
    requires ns.node != ans.node && glue.node != ans.node
    ensures Get(AddAll(AddAll(Empty, [ns, glue]), [ans]), ans.node) == [ans]
  {
    AddAllElsewhere(Empty, [ns, glue], ans.node);
    var c1 := AddAll(Empty, [ns, glue]);
    assert AddAll(c1, [ans]) == Add(c1, ans);
  }

  /** The glue server's answer is cached and ends the delegation. */
  lemma AnswerFromGlue(env: Env, node: Node, ip: string, ans: Record, st1: State, st2: State, fuel: nat)
    requires QueryCodec.QuestionFits(node.host)
    requires env.respond(ip, node) == Some([ans]) && ans.node == node
    requires st2 == State(AddAll(st1.cache, [ans]), st1.sent + [Query(ip, node)])
    ensures Retrieve(env, node, ip, st1, fuel) == Success(st2)
  {
    RetrieveAnswered(env, node, ip, st1, fuel, [ans], 0);
  }

  /** A referral with glue sends the next query to the glue address. */
  lemma RootReferral(env: Env, node: Node, ns: Record, glue: Record, ip: string, st0: State, st1: State, fuel: nat)
    requires fuel > 0 && !Settles(node, ns) && !Settles(node, glue) && !IsGlue(ns) && glue.value == Address(ip) && IsGlue(glue)
    requires env.respond(env.root, node) == Some([ns, glue])
    requires st1 == State(AddAll(st0.cache, [ns, glue]), st0.sent + [Query(env.root, node)])
    ensures Retrieve(env, node, env.root, st0, fuel) == Retrieve(env, node, ip, st1, fuel - 1)
  {
    AsksFirstGlue(env, node, [ns, glue], st1, fuel, 1);
  }

  /**
   * An empty cache and no CNAME: the lookup is the root query and a second
   * look at the cache it leaves.
   */
  lemma LookupAfterRootQuery(env: Env, node: Node, st0: State, st2: State, records: seq<Record>, fuel: nat)
    requires st0 == State(Empty, [])
    requires Retrieve(env, node, env.root, st0, fuel) == Success(st2)
    requires Get(st2.cache, node) == records && |records| > 0
    ensures GetResults(env, node, 0, st0, fuel) == Success(Answer(records, st2))
  {
    assert ParseCName(env, node, 0, st0, fuel) == Success(Answer([], st0));
  }

  /** A reply that answers the node, or redirects it, is cached and ends the delegation. */
  lemma RetrieveAnswered(env: Env, node: Node, server: string, st: State, fuel: nat, rs: seq<Record>, i: nat)
    requires QueryCodec.QuestionFits(node.host)
    requires env.respond(server, node) == Some(rs)
    requires i < |rs| && Settles(node, rs[i])
    ensures Retrieve(env, node, server, st, fuel) == Success(State(AddAll(st.cache, rs), st.sent + [Query(server, node)]))
  {
    SettledReplyStops(env, node, rs, State(AddAll(st.cache, rs), st.sent + [Query(server, node)]), fuel, i);
  }

  // ----- the oracle and the decoder -----

  /**
   * What decodeAndCacheResponse hands back for a reply it decodes without
   * an exception: the records of all three sections, or null.
   */
  function ReplyOf(d: Decoded): (reply: Option<seq<Record>>)
    requires !d.outcome.Malformed?
    ensures reply.Some? <==> d.outcome.Answers?
  {
    if d.outcome.Answers? then Some(d.outcome.records) else None
  }

  /**
   * The oracle's reading of a reply agrees with the decoder: the cache the
   * resolver keeps after absorbing the reply is the one the decoder leaves,
   * and the reply is null exactly on an ID mismatch or an error RCODE.
   */
  lemma OracleMatchesDecoder(id: nat, buf: seq<byte>, c: Cache, fuel: nat, isAddress: string -> bool)
    requires !DecodeResponse(id, buf, c, fuel, isAddress).outcome.Malformed?
    ensures var d := DecodeResponse(id, buf, c, fuel, isAddress);
            Absorb(c, ReplyOf(d)) == d.cache
    ensures ReplyOf(DecodeResponse(id, buf, c, fuel, isAddress)).None? <==>
              |buf| >= 2 && (DecodeTwoOctets(buf[0], buf[1]) != id || (|buf| >= 4 && 1 <= RCode(buf) <= 5))
  {
  }
}
