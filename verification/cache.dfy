/**
 * The record cache the decoder writes and the resolver reads. DNSCache's
 * source is not part of this model, so the model assumes its behaviour:
 * records are kept per node, a record is identified by its node and value
 * so inserting one whose value is already there overwrites it (keeping the
 * new TTL), and reads return what is stored for the exact node. Nothing
 * expires.
 */
module Cache {
  import opened Records

  type Cache = map<Node, seq<Record>>

  const Empty: Cache := map[]

  /** getCachedResults(node): the records stored under node, none if it was never written. */
  function Get(c: Cache, n: Node): seq<Record>
  {
    if n in c then c[n] else []
  }

  /** The values stored for a node: what set semantics on (node, value) keeps. */
  function ValuesAt(c: Cache, n: Node): set<Value>
  {
    set x | x in Get(c, n) :: x.value
  }

  /** Every record sits under its own node. */
  ghost predicate Keyed(c: Cache)
  {
    forall n, x :: n in c && x in c[n] ==> x.node == n
  }

  /** No two records of one entry share a value. */
  predicate DistinctValues(rs: seq<Record>)
  {
    forall i, j :: 0 <= i < j < |rs| ==> rs[i].value != rs[j].value
  }

  ghost predicate Wellformed(c: Cache)
  {
    Keyed(c) && forall n :: n in c ==> DistinctValues(c[n])
  }

  /** Everything old stays readable: no value disappears from any node. */
  ghost predicate Retains(c: Cache, c': Cache)
  {
    forall n :: ValuesAt(c, n) <= ValuesAt(c', n)
  }

  /**
   * One entry after inserting r: a record with the same value is replaced in
   * place by r, otherwise r is appended.
   */
  function Upsert(rs: seq<Record>, r: Record): (res: seq<Record>)
    ensures r in res
    ensures forall x :: x in res ==> x == r || x in rs
    ensures forall x :: x in rs && x.value != r.value ==> x in res
    ensures (exists i :: 0 <= i < |rs| && rs[i].value == r.value) ==> |res| == |rs|
    ensures (forall i :: 0 <= i < |rs| ==> rs[i].value != r.value) ==> res == rs + [r]
  {
    if |rs| == 0 then [r]
    else if rs[0].value == r.value then [r] + rs[1..]
    else
      var tail := Upsert(rs[1..], r);
      assert forall x :: x in rs[1..] ==> x in rs;
      [rs[0]] + tail
  }

  /** Replacing in place or appending a new value keeps values distinct. */
  lemma {:induction false} UpsertDistinct(rs: seq<Record>, r: Record)
    requires DistinctValues(rs)
    ensures DistinctValues(Upsert(rs, r))
    decreases |rs|
  {
    if |rs| > 0 {
      var rest := rs[1..];
      assert DistinctValues(rest);
      if rs[0].value == r.value {
        assert forall k :: 0 <= k < |rest| ==> rest[k] == rs[k + 1];
        ConsDistinct(r, rest);
      } else {
        UpsertDistinct(rest, r);
        UpsertAvoidsHead(rs, r);
        ConsDistinct(rs[0], Upsert(rest, r));
      }
    }
  }

  /** A record whose value none of a distinct entry's records carry can go in front of it. */
  lemma ConsDistinct(h: Record, tail: seq<Record>)
    requires DistinctValues(tail)
    requires forall k :: 0 <= k < |tail| ==> tail[k].value != h.value
    ensures DistinctValues([h] + tail)
  {
    var res := [h] + tail;
    forall a, b | 0 <= a < b < |res|
      ensures res[a].value != res[b].value
    {
      assert res[b] == tail[b - 1];
      if a > 0 {
        assert res[a] == tail[a - 1];
      }
    }
  }

  /** Inserting into the tail never brings in the head's value when r does not carry it. */
  lemma UpsertAvoidsHead(rs: seq<Record>, r: Record)
    requires DistinctValues(rs) && |rs| > 0 && rs[0].value != r.value
    ensures forall k :: 0 <= k < |Upsert(rs[1..], r)| ==> Upsert(rs[1..], r)[k].value != rs[0].value
  {
    var tail := Upsert(rs[1..], r);
    forall k | 0 <= k < |tail|
      ensures tail[k].value != rs[0].value
    {
      var x := tail[k];
      assert x in tail;
      if x != r {
        var m :| 0 <= m < |rs[1..]| && rs[1..][m] == x;
        assert rs[m + 1] == x;
      }
    }
  }

  /** addResult(record): the record is filed under its own node. */
  function Add(c: Cache, r: Record): (c': Cache)
    ensures r in Get(c', r.node)
    ensures forall n :: n != r.node ==> Get(c', n) == Get(c, n)
    ensures forall x :: x in Get(c', r.node) ==> x == r || x in Get(c, r.node)
    ensures ValuesAt(c', r.node) == ValuesAt(c, r.node) + {r.value}
  {
    c[r.node := Upsert(Get(c, r.node), r)]
  }

  /** Filing a record under its own node keeps the cache well formed. */
  lemma AddWellformed(c: Cache, r: Record)
    requires Wellformed(c)
    ensures Wellformed(Add(c, r))
  {
    UpsertDistinct(Get(c, r.node), r);
  }

  /** The records added one after the other, as the decoder's three loops do. */
  function AddAll(c: Cache, rs: seq<Record>): (c': Cache)
    decreases |rs|
  {
    if |rs| == 0 then c else AddAll(Add(c, rs[0]), rs[1..])
  }

  /** Inserting never loses a value. */
  lemma AddRetains(c: Cache, r: Record)
    ensures Retains(c, Add(c, r))
  {
    forall n
      ensures ValuesAt(c, n) <= ValuesAt(Add(c, r), n)
    {
      if n == r.node {
        assert ValuesAt(Add(c, r), n) == ValuesAt(c, n) + {r.value};
      } else {
        assert Get(Add(c, r), n) == Get(c, n);
      }
    }
  }

  /** The values a batch of records carries for node n. */
  function BatchValues(rs: seq<Record>, n: Node): set<Value>
  {
    set x | x in rs && x.node == n :: x.value
  }

  lemma BatchValuesStep(rs: seq<Record>, n: Node)
    requires |rs| > 0
    ensures BatchValues(rs, n) == (if rs[0].node == n then {rs[0].value} else {}) + BatchValues(rs[1..], n)
  {
    assert rs == [rs[0]] + rs[1..];
    assert forall x :: x in rs <==> x == rs[0] || x in rs[1..];
  }

  /**
   * After adding a batch, the values under each node are the old ones plus
   * the values of the batch's records for that node, and nothing else.
   */
  lemma {:induction false} AddAllValues(c: Cache, rs: seq<Record>, n: Node)
    ensures ValuesAt(AddAll(c, rs), n) == ValuesAt(c, n) + BatchValues(rs, n)
    decreases |rs|
  {
    if |rs| > 0 {
      var c1 := Add(c, rs[0]);
      assert AddAll(c, rs) == AddAll(c1, rs[1..]);
      AddAllValues(c1, rs[1..], n);
      BatchValuesStep(rs, n);
      if rs[0].node == n {
        assert ValuesAt(c1, n) == ValuesAt(c, n) + {rs[0].value};
      } else {
        assert Get(c1, n) == Get(c, n);
        assert ValuesAt(c1, n) == ValuesAt(c, n);
      }
    } else {
      assert BatchValues(rs, n) == {};
    }
  }

  /** Nodes none of the batch's records belong to read exactly as before. */
  lemma {:induction false} AddAllElsewhere(c: Cache, rs: seq<Record>, n: Node)
    requires forall x :: x in rs ==> x.node != n
    ensures Get(AddAll(c, rs), n) == Get(c, n)
    decreases |rs|
  {
    if |rs| > 0 {
      assert rs[0] in rs;
      assert forall x :: x in rs[1..] ==> x in rs;
      AddAllElsewhere(Add(c, rs[0]), rs[1..], n);
    }
  }

  /** Adding a batch keeps the cache well formed and loses nothing. */
  lemma {:induction false} AddAllPreserves(c: Cache, rs: seq<Record>)
    requires Wellformed(c)
    ensures Wellformed(AddAll(c, rs))
    ensures Retains(c, AddAll(c, rs))
    decreases |rs|
  {
    if |rs| > 0 {
      var c1 := Add(c, rs[0]);
      AddRetains(c, rs[0]);
      AddWellformed(c, rs[0]);
      AddAllPreserves(c1, rs[1..]);
    }
  }

  /** The records of a well-formed cache entry all belong to that entry's node. */
  lemma KeyedGet(c: Cache, n: Node)
    requires Wellformed(c)
    ensures forall x :: x in Get(c, n) ==> x.node == n
  {
  }
}
