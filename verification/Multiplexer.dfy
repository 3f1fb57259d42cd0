/**
  An inverted index from values to handlers. A stream of one value per position finds the handlers all
  of whose requirements it meets, counting per handler; counters are stamped with the stream's number so
  that they need no clearing. The value types of the positions are folded into one.
 */
module Multiplexer {
  datatype Handler<D> = Handler(lastId: nat, noReqs: nat, reqsSatisfied: nat, data: D)

  /** A handler wants this value at this position. */
  type Requirement<V> = (nat, V)

  ghost predicate Meets<V>(reqs: seq<Requirement<V>>, t: seq<V>) {
    forall r :: r in reqs ==> r.0 < |t| && t[r.0] == r.1
  }

  /** The handlers a stream should find: some requirement, and all of them met. */
  ghost predicate Wanted<V>(all: seq<seq<Requirement<V>>>, t: seq<V>, h: nat) {
    h < |all| && all[h] != [] && Meets(all[h], t)
  }

  function Listed<V(==)>(m: map<V, seq<nat>>, v: V): seq<nat> {
    if v in m then m[v] else []
  }

  // ---------- counting ----------

  /** How often the handler is counted at the positions before p. */
  ghost function Hits<V>(reqs: seq<Requirement<V>>, t: seq<V>, p: nat): nat
    requires p <= |t|
  {
    if p == 0 then 0 else Hits(reqs, t, p - 1) + multiset(reqs)[(p - 1, t[p - 1])]
  }

  ghost function Met<V>(reqs: seq<Requirement<V>>, t: seq<V>): nat {
    if reqs == [] then 0
    else
      var last := reqs[|reqs| - 1];
      Met(reqs[..|reqs| - 1], t) + (if last.0 < |t| && t[last.0] == last.1 then 1 else 0)
  }

  lemma {:induction false} HitsOfOneMore<V>(reqs: seq<Requirement<V>>, r: Requirement<V>, t: seq<V>, p: nat)
    requires p <= |t|
    ensures Hits(reqs + [r], t, p) == Hits(reqs, t, p) + (if r.0 < p && t[r.0] == r.1 then 1 else 0)
  {
    if p > 0 {
      HitsOfOneMore(reqs, r, t, p - 1);
      assert multiset(reqs + [r]) == multiset(reqs) + multiset{r};
    }
  }

  lemma {:induction false} HitsOfNone<V>(t: seq<V>, p: nat)
    requires p <= |t|
    ensures Hits<V>([], t, p) == 0
  {
    if p > 0 {
      HitsOfNone(t, p - 1);
    }
  }

  lemma {:induction false} HitsCountMet<V>(reqs: seq<Requirement<V>>, t: seq<V>)
    ensures Hits(reqs, t, |t|) == Met(reqs, t) <= |reqs|
    ensures Met(reqs, t) == |reqs| <==> Meets(reqs, t)
    decreases |reqs|
  {
    if reqs == [] {
      HitsOfNone(t, |t|);
    } else {
      var init, last := reqs[..|reqs| - 1], reqs[|reqs| - 1];
      assert reqs == init + [last];
      HitsOfOneMore(init, last, t, |t|);
      HitsCountMet(init, t);
      assert forall r :: r in reqs <==> r in init || r == last;
    }
  }

  // ---------- the progress of one stream ----------

  ghost function CountOf<D>(h: Handler<D>, id: nat): nat {
    if h.lastId == id then h.reqsSatisfied else 0
  }

  ghost predicate Distinct(hits: seq<nat>) {
    forall i, j :: 0 <= i < j < |hits| ==> hits[i] != hits[j]
  }

  ghost function DataOf<D>(pool: seq<Handler<D>>, hits: seq<nat>): seq<D>
    requires forall h :: h in hits ==> h < |pool|
  {
    seq(|hits|, i requires 0 <= i < |hits| => assert hits[i] in hits; pool[hits[i]].data)
  }

  ghost predicate CountsAre<D>(pool: seq<Handler<D>>, id: nat, seen: seq<nat>) {
    forall h :: 0 <= h < |pool| ==> CountOf(pool[h], id) == multiset(seen)[h]
  }

  ghost predicate HitsAre<D>(pool: seq<Handler<D>>, seen: seq<nat>, hits: seq<nat>) {
    Distinct(hits) && forall h: nat :: h in hits <==> h < |pool| && 0 < pool[h].noReqs <= multiset(seen)[h]
  }

  /** After counting the handlers in `seen`, one by one. */
  ghost predicate Progress<D>(pool: seq<Handler<D>>, id: nat, seen: seq<nat>, hits: seq<nat>, res: seq<D>) {
    CountsAre(pool, id, seen) && HitsAre(pool, seen, hits) && res == DataOf(pool, hits)
  }

  ghost predicate SameHandlers<D>(a: seq<Handler<D>>, b: seq<Handler<D>>, id: nat) {
    && |a| == |b|
    && forall h :: 0 <= h < |a| ==>
         a[h].noReqs == b[h].noReqs && a[h].data == b[h].data && (a[h].lastId <= id ==> b[h].lastId <= id)
  }

  /** One handler counted: its counter restarted if it is from an earlier stream, and then raised. */
  function Counted<D>(h: Handler<D>, id: nat): (c: Handler<D>)
    ensures c.lastId == id && c.noReqs == h.noReqs && c.data == h.data
  {
    var restarted := if h.lastId != id then h.(lastId := id, reqsSatisfied := 0) else h;
    restarted.(reqsSatisfied := restarted.reqsSatisfied + 1)
  }

  lemma SeenOneMore(seen: seq<nat>, h: nat)
    ensures forall k :: multiset(seen + [h])[k] == multiset(seen)[k] + (if k == h then 1 else 0)
  {
    assert multiset(seen + [h]) == multiset(seen) + multiset{h};
  }

  lemma CountsOneMore<D>(pool: seq<Handler<D>>, id: nat, seen: seq<nat>, h: nat)
    requires CountsAre(pool, id, seen) && h < |pool|
    ensures CountsAre(pool[h := Counted(pool[h], id)], id, seen + [h])
    ensures Counted(pool[h], id).reqsSatisfied == multiset(seen)[h] + 1
  {
    SeenOneMore(seen, h);
    assert CountOf(pool[h], id) == multiset(seen)[h];
  }

  /** A handler is hit when its count reaches its number of requirements, and so only once. */
  lemma HitsOneMore<D>(pool: seq<Handler<D>>, seen: seq<nat>, hits: seq<nat>, h: nat, c: Handler<D>)
    requires HitsAre(pool, seen, hits) && h < |pool|
    requires c.noReqs == pool[h].noReqs && c.reqsSatisfied == multiset(seen)[h] + 1
    ensures HitsAre(pool[h := c], seen + [h], if c.reqsSatisfied == c.noReqs then hits + [h] else hits)
  {
    SeenOneMore(seen, h);
    var now := if c.reqsSatisfied == c.noReqs then hits + [h] else hits;
    forall k: nat
      ensures k in now <==> k < |pool| && 0 < pool[h := c][k].noReqs <= multiset(seen + [h])[k]
    {
      assert k in now <==> k in hits || (c.reqsSatisfied == c.noReqs && k == h);
    }
  }

  lemma DataOneMore<D>(pool: seq<Handler<D>>, hits: seq<nat>, h: nat, c: Handler<D>)
    requires h < |pool| && c.data == pool[h].data && forall k :: k in hits ==> k < |pool|
    ensures DataOf(pool[h := c], hits) == DataOf(pool, hits)
    ensures forall k :: k in hits + [h] ==> k < |pool|
    ensures DataOf(pool[h := c], hits + [h]) == DataOf(pool, hits) + [c.data]
  {
    forall i | 0 <= i < |hits|
      ensures hits[i] < |pool| && pool[h := c][hits[i]].data == pool[hits[i]].data
    {
      assert hits[i] in hits;
    }
  }

  lemma SameAfterCount<D>(start: seq<Handler<D>>, pool: seq<Handler<D>>, id: nat, h: nat)
    requires SameHandlers(start, pool, id) && h < |pool|
    ensures SameHandlers(start, pool[h := Counted(pool[h], id)], id)
  {
  }

  lemma SeenNext(seen: seq<nat>, list: seq<nat>, i: nat)
    requires i < |list|
    ensures seen + list[..i] + [list[i]] == seen + list[..i + 1]
  {
  }

  lemma CountOne<D>(pool: seq<Handler<D>>, id: nat, seen: seq<nat>, hits: seq<nat>, res: seq<D>, h: nat)
    requires Progress(pool, id, seen, hits, res) && h < |pool|
    ensures var c := Counted(pool[h], id);
            var hit := c.reqsSatisfied == c.noReqs;
            Progress(pool[h := c], id, seen + [h], if hit then hits + [h] else hits,
                     if hit then res + [c.data] else res)
  {
    var c := Counted(pool[h], id);
    CountsOneMore(pool, id, seen, h);
    HitsOneMore(pool, seen, hits, h, c);
    DataOneMore(pool, hits, h, c);
  }

  // ---------- the multiplexer ----------

  class Multiplexer<D, V(==, !new)> {
    const noTypes: nat
    var uniqueId: nat
    var streamRes: seq<D>
    var pool: seq<Handler<D>>
    var maps: seq<map<V, seq<nat>>>
    /** Each handler's requirements, as they were added. */
    ghost var reqs: seq<seq<Requirement<V>>>

    ghost predicate Valid()
      reads this
    {
      && 1 <= uniqueId && |maps| == noTypes && |reqs| == |pool|
      && (forall h :: 0 <= h < |pool| ==> pool[h].lastId <= uniqueId && pool[h].noReqs == |reqs[h]|)
      && (forall h, r :: 0 <= h < |pool| && r in reqs[h] ==> r.0 < noTypes)
      && Indexed(maps, reqs)
    }

    /** The index lists each handler under a value as often as it requires it. */
    static ghost predicate Indexed(maps: seq<map<V, seq<nat>>>, reqs: seq<seq<Requirement<V>>>) {
      forall p, v :: 0 <= p < |maps| ==> IndexedAt(Listed(maps[p], v), reqs, p, v)
    }

    static ghost predicate IndexedAt(list: seq<nat>, reqs: seq<seq<Requirement<V>>>, p: nat, v: V) {
      && (forall h :: h in list ==> h < |reqs|)
      && forall h :: 0 <= h < |reqs| ==> multiset(list)[h] == multiset(reqs[h])[(p, v)]
    }

    constructor (noTypes: nat)
      ensures Valid() && this.noTypes == noTypes && reqs == [] && pool == []
    {
      this.noTypes := noTypes;
      uniqueId, streamRes, pool, maps, reqs := 1, [], [], seq(noTypes, _ => map[]), [];
    }

    method AppendNewEmptyHandler(data: D)
      requires Valid()
      modifies this
      ensures Valid() && reqs == old(reqs) + [[]]
      ensures pool == old(pool) + [Handler(0, 0, 0, data)] && maps == old(maps)
    {
      pool := pool + [Handler(0, 0, 0, data)];
      reqs := reqs + [[]];
      forall p, v | 0 <= p < |maps|
        ensures IndexedAt(Listed(maps[p], v), reqs, p, v)
      {
        assert IndexedAt(Listed(maps[p], v), old(reqs), p, v);
        assert |old(reqs)| !in Listed(maps[p], v);
      }
    }

    /** There has to be a last handler. */
    method AddRequirementToLastHandler(typeIndex: nat, val: V)
      requires Valid() && |pool| > 0 && typeIndex < noTypes
      modifies this
      ensures Valid()
      ensures reqs == old(reqs)[|old(pool)| - 1 := old(reqs)[|old(pool)| - 1] + [(typeIndex, val)]]
      ensures |pool| == |old(pool)| && forall h :: 0 <= h < |pool| ==> pool[h].data == old(pool)[h].data
    {
      var last: nat := |pool| - 1;
      IndexOneMore(maps, reqs, last, typeIndex, val);
      maps := maps[typeIndex := maps[typeIndex][val := Listed(maps[typeIndex], val) + [last]]];
      pool := pool[last := pool[last].(noReqs := pool[last].noReqs + 1)];
      reqs := reqs[last := reqs[last] + [(typeIndex, val)]];
    }

    static lemma IndexOneMore(maps: seq<map<V, seq<nat>>>, reqs: seq<seq<Requirement<V>>>, last: nat,
                              typeIndex: nat, val: V)
      requires Indexed(maps, reqs) && last < |reqs| && typeIndex < |maps|
      ensures Indexed(maps[typeIndex := maps[typeIndex][val := Listed(maps[typeIndex], val) + [last]]],
                      reqs[last := reqs[last] + [(typeIndex, val)]])
    {
      var maps' := maps[typeIndex := maps[typeIndex][val := Listed(maps[typeIndex], val) + [last]]];
      var reqs' := reqs[last := reqs[last] + [(typeIndex, val)]];
      forall p, v | 0 <= p < |maps|
        ensures IndexedAt(Listed(maps'[p], v), reqs', p, v)
      {
        ListOneMore(Listed(maps[p], v), reqs, last, typeIndex, val, p, v);
      }
    }

    static lemma ListOneMore(list: seq<nat>, reqs: seq<seq<Requirement<V>>>, last: nat, typeIndex: nat, val: V,
                             p: nat, v: V)
      requires IndexedAt(list, reqs, p, v) && last < |reqs|
      ensures IndexedAt(if p == typeIndex && v == val then list + [last] else list,
                        reqs[last := reqs[last] + [(typeIndex, val)]], p, v)
    {
      var r: Requirement<V> := (typeIndex, val);
      assert multiset(reqs[last] + [r]) == multiset(reqs[last]) + multiset{r};
      SeenOneMore(list, last);
    }

    method StreamArray(t: seq<V>) returns (res: seq<D>, ghost hits: seq<nat>)
      requires Valid() && |t| == noTypes
      modifies this
      ensures Valid() && reqs == old(reqs) && SameHandlers(old(pool), pool, uniqueId)
      ensures Distinct(hits) && forall h: nat :: h in hits <==> Wanted(reqs, t, h)
      ensures |res| == |hits|
      ensures forall i :: 0 <= i < |hits| ==> hits[i] < |old(pool)| && res[i] == old(pool)[hits[i]].data
    {
      uniqueId := uniqueId + 1;
      streamRes := [];
      ghost var seen;
      assert DataOf(pool, []) == [];
      seen, hits := RecStreamArray(0, t, [], []);
      res := streamRes;
      forall h: nat
        ensures h in hits <==> Wanted(reqs, t, h)
      {
        if h < |pool| {
          HitsCountMet(reqs[h], t);
        }
      }
    }

    /** The positions from `currIndex` on. */
    method RecStreamArray(currIndex: nat, t: seq<V>, ghost seen: seq<nat>, ghost hits: seq<nat>)
      returns (ghost seen': seq<nat>, ghost hits': seq<nat>)
      requires Valid() && |t| == noTypes && currIndex <= noTypes
      requires Progress(pool, uniqueId, seen, hits, streamRes)
      requires forall h :: 0 <= h < |pool| ==> multiset(seen)[h] == Hits(reqs[h], t, currIndex)
      modifies this
      ensures Valid() && reqs == old(reqs) && uniqueId == old(uniqueId)
      ensures SameHandlers(old(pool), pool, uniqueId)
      ensures Progress(pool, uniqueId, seen', hits', streamRes)
      ensures forall h :: 0 <= h < |pool| ==> multiset(seen')[h] == Hits(reqs[h], t, noTypes)
      decreases noTypes - currIndex
    {
      hide Progress;
      seen', hits' := seen, hits;
      if currIndex < noTypes {
        var val := t[currIndex];
        if val !in maps[currIndex] {
          // Looking a value up in the map of the standard library puts it there.
          maps := maps[currIndex := maps[currIndex][val := []]];
          assert forall p, v :: 0 <= p < |maps| ==> Listed(maps[p], v) == Listed(old(maps)[p], v);
        }
        var list := maps[currIndex][val];
        assert IndexedAt(Listed(maps[currIndex], val), reqs, currIndex, val);
        seen', hits' := CountHandlers(list, seen, hits);
        assert multiset(seen + list) == multiset(seen) + multiset(list);
        seen', hits' := RecStreamArray(currIndex + 1, t, seen', hits');
      }
    }

    /** The loop over the handlers listed for one value. */
    method CountHandlers(list: seq<nat>, ghost seen: seq<nat>, ghost hits: seq<nat>)
      returns (ghost seen': seq<nat>, ghost hits': seq<nat>)
      requires forall h :: h in list ==> h < |pool|
      requires Progress(pool, uniqueId, seen, hits, streamRes)
      modifies this`pool, this`streamRes
      ensures SameHandlers(old(pool), pool, uniqueId)
      ensures seen' == seen + list && Progress(pool, uniqueId, seen', hits', streamRes)
    {
      seen', hits' := seen, hits;
      for i := 0 to |list|
        invariant SameHandlers(old(pool), pool, uniqueId)
        invariant seen' == seen + list[..i] && Progress(pool, uniqueId, seen', hits', streamRes)
      {
        var h := list[i];
        assert h in list;
        var counted := Counted(pool[h], uniqueId);
        CountOne(pool, uniqueId, seen', hits', streamRes, h);
        SameAfterCount(old(pool), pool, uniqueId, h);
        SeenNext(seen, list, i);
        pool := pool[h := counted];
        seen' := seen' + [h];
        if counted.reqsSatisfied == counted.noReqs {
          streamRes := streamRes + [counted.data];
          hits' := hits' + [h];
        }
      }
      assert list[..|list|] == list;
    }
  }
}
