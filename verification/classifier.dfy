/** The online identity registry of src/lib/classify.ts: `Classifier` with
    its insertion-ordered `#store` from canonical key to id and its `#nextId`
    counter. The module-level singleton is replaced by an explicit state value
    that every call takes and returns. */
module Classification {
  import opened Wrappers
  import opened Normalize
  import opened EditDistance

  /** A fuzzy match must be strictly closer than this. */
  const Threshold: nat := 3

  datatype Registration = Registration(key: string, id: nat)

  /** `store` lists the registered keys in insertion order, as a JavaScript
      `Map` iterates them. */
  datatype Classifier = Classifier(store: seq<Registration>, nextId: nat)

  /** A newly constructed classifier: nothing stored, ids start at 1. */
  const Fresh: Classifier := Classifier([], 1)

  predicate KeysDistinct(store: seq<Registration>) {
    forall i, j :: 0 <= i < j < |store| ==> store[i].key != store[j].key
  }

  /** What the class maintains: keys are unique (a `Map`), every stored id was
      allocated already, and so is never 0 (never falsy). */
  predicate Valid(c: Classifier) {
    && c.nextId >= 1
    && KeysDistinct(c.store)
    && forall i :: 0 <= i < |c.store| ==> 1 <= c.store[i].id < c.nextId
  }

  /** A newly constructed classifier meets the invariant; `Classify` keeps
      it, so every reachable state does. */
  lemma FreshValid()
    ensures Valid(Fresh)
  {
  }

  /** `Map.get`. */
  function Lookup(store: seq<Registration>, key: string): (r: Option<nat>)
    ensures r.None? <==> forall i :: 0 <= i < |store| ==> store[i].key != key
    ensures r.Some? ==> exists i :: 0 <= i < |store| && store[i] == Registration(key, r.value)
  {
    if |store| == 0 then None
    else if store[0].key == key then Some(store[0].id)
    else
      var r := Lookup(store[1..], key);
      assert r.Some? ==> exists i :: 0 <= i < |store| && store[i] == Registration(key, r.value) by {
        if r.Some? {
          var i :| 0 <= i < |store[1..]| && store[1..][i] == Registration(key, r.value);
          assert store[i + 1] == Registration(key, r.value);
        }
      }
      r
  }

  /** With unique keys, the entry holding a key determines the lookup. */
  lemma LookupAt(store: seq<Registration>, i: nat)
    requires KeysDistinct(store) && i < |store|
    ensures Lookup(store, store[i].key) == Some(store[i].id)
  {
    var r := Lookup(store, store[i].key);
    var j :| 0 <= j < |store| && store[j] == Registration(store[i].key, r.value);
    assert i == j;
  }

  function Dst(store: seq<Registration>, key: string, k: nat): nat
    requires k < |store|
  {
    Distance(store[k].key, key)
  }

  /** Store position `k` is the one `#fuzzyFind` settles on: strictly within the
      threshold, no stored key closer, and every earlier key strictly
      farther. */
  predicate IsFirstBest(store: seq<Registration>, key: string, k: nat) {
    && k < |store|
    && Dst(store, key, k) < Threshold
    && (forall m :: 0 <= m < |store| ==> Dst(store, key, k) <= Dst(store, key, m))
    && (forall m :: 0 <= m < k ==> Dst(store, key, k) < Dst(store, key, m))
  }

  lemma FirstBestUnique(store: seq<Registration>, key: string, k: nat, k': nat)
    requires IsFirstBest(store, key, k) && IsFirstBest(store, key, k')
    ensures k == k'
  {
  }

  /** The smallest distance from `key` to a stored key, capped at the
      threshold. */
  function Best(store: seq<Registration>, key: string): (d: nat)
    ensures d <= Threshold
    ensures forall m :: 0 <= m < |store| ==> d <= Dst(store, key, m)
    ensures d < Threshold ==> exists m :: 0 <= m < |store| && Dst(store, key, m) == d
  {
    if |store| == 0 then Threshold
    else
      var rest := Best(store[1..], key);
      var here := Dst(store, key, 0);
      assert forall m :: 1 <= m < |store| ==> store[1..][m - 1] == store[m];
      assert forall m :: 1 <= m < |store| ==> Dst(store, key, m) == Dst(store[1..], key, m - 1);
      assert rest < Threshold ==> exists m :: 0 <= m < |store| && Dst(store, key, m) == rest by {
        if rest < Threshold {
          var m :| 0 <= m < |store[1..]| && Dst(store[1..], key, m) == rest;
          assert Dst(store, key, m + 1) == rest;
        }
      }
      if here < rest then here else rest
  }

  /** The first stored position at distance `d` from `key`. */
  function FirstAt(store: seq<Registration>, key: string, d: nat): (k: nat)
    requires exists m :: 0 <= m < |store| && Dst(store, key, m) == d
    ensures k < |store| && Dst(store, key, k) == d
    ensures forall m :: 0 <= m < k ==> Dst(store, key, m) != d
  {
    if Dst(store, key, 0) == d then 0
    else
      assert exists m :: 0 <= m < |store[1..]| && Dst(store[1..], key, m) == d by {
        var m :| 0 <= m < |store| && Dst(store, key, m) == d;
        assert m > 0;
        var m' := m - 1;
        assert store[1..][m'] == store[m];
        assert Dst(store[1..], key, m') == Dst(store, key, m);
      }
      var k := FirstAt(store[1..], key, d);
      assert forall m :: 1 <= m < |store| ==> store[1..][m - 1] == store[m];
      assert forall m :: 1 <= m < |store| ==> Dst(store, key, m) == Dst(store[1..], key, m - 1);
      1 + k
  }

  /** The id `#fuzzyFind` returns: that of the first key at minimal distance,
      provided the distance is below the threshold. */
  function Fuzzy(store: seq<Registration>, key: string): (r: Option<nat>)
    ensures r.None? <==> forall m :: 0 <= m < |store| ==> Dst(store, key, m) >= Threshold
    ensures r.Some? ==> exists k: nat :: IsFirstBest(store, key, k) && r.value == store[k].id
  {
    var d := Best(store, key);
    if d < Threshold then
      var k := FirstAt(store, key, d);
      assert IsFirstBest(store, key, k);
      Some(store[k].id)
    else None
  }

  /** `#fuzzyFind`: one pass over the store in insertion order, replacing the
      candidate only on a strictly smaller distance. */
  method FuzzyFind(store: seq<Registration>, key: string) returns (result: Option<nat>)
    ensures result == Fuzzy(store, key)
  {
    result := None;
    var bestDist := Threshold;
    ghost var best: int := -1;
    for i := 0 to |store|
      invariant bestDist <= Threshold
      invariant best == -1 ==> result.None? && bestDist == Threshold
      invariant best == -1 ==> forall k :: 0 <= k < i ==> Dst(store, key, k) >= Threshold
      invariant best != -1 ==> 0 <= best < i && result == Some(store[best].id)
      invariant best != -1 ==> bestDist == Dst(store, key, best) < Threshold
      invariant best != -1 ==> forall k :: 0 <= k < i ==> bestDist <= Dst(store, key, k)
      invariant best != -1 ==> forall k :: 0 <= k < best ==> bestDist < Dst(store, key, k)
    {
      var dist := ComputeDistance(store[i].key, key);
      if dist < bestDist {
        result := Some(store[i].id);
        bestDist := dist;
        best := i;
      }
    }
    if best != -1 {
      assert IsFirstBest(store, key, best);
      var f := Fuzzy(store, key);
      var k: nat :| IsFirstBest(store, key, k) && f.value == store[k].id;
      FirstBestUnique(store, key, k, best);
    }
  }

  datatype Classified = Classified(id: nat, state: Classifier)

  /** `getClass` as a state transition. An exact key hit returns the stored id
      and changes nothing; otherwise the key is appended with the id of the
      first closest stored key within the threshold, or with a fresh id. The
      state stays valid, the key now maps to the returned id, no earlier key
      changes its id, and the counter grows only to hand out the id
      returned. */
  function Classify(c: Classifier, txt: string): (r: Classified)
    requires Valid(c)
    ensures Valid(r.state)
    ensures 1 <= r.id < r.state.nextId
    ensures Lookup(r.state.store, Clean(txt)) == Some(r.id)
    ensures forall k :: Lookup(c.store, k).Some? ==> Lookup(r.state.store, k) == Lookup(c.store, k)
    ensures c.nextId <= r.state.nextId <= c.nextId + 1
    ensures r.state.nextId == c.nextId + 1 ==> r.id == c.nextId
  {
    var key := Clean(txt);
    match Lookup(c.store, key)
    case Some(id) =>
      Classified(id, c)
    case None =>
      var f := Fuzzy(c.store, key);
      var id := if f.Some? then f.value else c.nextId;
      var next := if f.Some? then c.nextId else c.nextId + 1;
      FuzzyIdAllocated(c, key);
      Register(c, key, id, next);
      Classified(id, Classifier(c.store + [Registration(key, id)], next))
  }

  /** A fuzzy match returns an id that was handed out already. */
  lemma FuzzyIdAllocated(c: Classifier, key: string)
    requires Valid(c)
    ensures Fuzzy(c.store, key).Some? ==> 1 <= Fuzzy(c.store, key).value < c.nextId
  {
    if Fuzzy(c.store, key).Some? {
      var k: nat :| IsFirstBest(c.store, key, k) && Fuzzy(c.store, key).value == c.store[k].id;
    }
  }

  /** Storing a new key under an allocated id keeps the state valid and
      leaves every earlier key's lookup alone. */
  lemma Register(c: Classifier, key: string, id: nat, next: nat)
    requires Valid(c) && Lookup(c.store, key).None?
    requires 1 <= id < next && c.nextId <= next
    ensures Valid(Classifier(c.store + [Registration(key, id)], next))
    ensures Lookup(c.store + [Registration(key, id)], key) == Some(id)
    ensures forall k :: Lookup(c.store, k).Some? ==> Lookup(c.store + [Registration(key, id)], k) == Lookup(c.store, k)
  {
    AppendPreservesLookup(c.store, Registration(key, id));
  }

  /** The three outcomes of `getClass`, told apart by the store before the
      call: a stored key returns its id with nothing changed; a new key
      within the threshold of a stored key takes the id of the first closest
      one and allocates nothing; any other new key gets the next id, which
      exceeds every id handed out before. */
  lemma ClassifyOutcome(c: Classifier, txt: string)
    requires Valid(c)
    ensures var key := Clean(txt); var r := Classify(c, txt);
      && (Lookup(c.store, key).Some? ==> r.id == Lookup(c.store, key).value && r.state == c)
      && (Lookup(c.store, key).None? ==> r.state.store == c.store + [Registration(key, r.id)])
      && (Lookup(c.store, key).None? && (exists k: nat :: IsFirstBest(c.store, key, k)) ==>
            r.state.nextId == c.nextId && exists k: nat :: IsFirstBest(c.store, key, k) && r.id == c.store[k].id)
      && (Lookup(c.store, key).None? && (forall m :: 0 <= m < |c.store| ==> Dst(c.store, key, m) >= Threshold) ==>
            r.id == c.nextId && r.state.nextId == c.nextId + 1
            && forall m :: 0 <= m < |c.store| ==> c.store[m].id < r.id)
  {
    var key := Clean(txt);
    if Lookup(c.store, key).None? && exists k: nat :: IsFirstBest(c.store, key, k) {
      var k: nat :| IsFirstBest(c.store, key, k);
      assert Dst(c.store, key, k) < Threshold;
    }
  }

  /** Appending an entry with a new key keeps the keys unique, finds the new
      key, and leaves every earlier key's lookup alone. */
  lemma AppendPreservesLookup(store: seq<Registration>, e: Registration)
    requires KeysDistinct(store) && Lookup(store, e.key).None?
    ensures KeysDistinct(store + [e])
    ensures Lookup(store + [e], e.key) == Some(e.id)
    ensures forall k :: Lookup(store, k).Some? ==> Lookup(store + [e], k) == Lookup(store, k)
  {
    var s := store + [e];
    assert KeysDistinct(s);
    LookupAt(s, |store|);
    forall k | Lookup(store, k).Some?
      ensures Lookup(s, k) == Lookup(store, k)
    {
      var i :| 0 <= i < |store| && store[i] == Registration(k, Lookup(store, k).value);
      LookupAt(s, i);
    }
  }

  /** `getClass`: exact lookup, then `#fuzzyFind`, then a fresh id. */
  method GetClass(c: Classifier, txt: string) returns (id: nat, next: Classifier)
    requires Valid(c)
    ensures Classified(id, next) == Classify(c, txt)
  {
    var key := Clean(txt);
    var found := Lookup(c.store, key);
    if found.Some? {
      return found.value, c;
    }
    var fuzzy := FuzzyFind(c.store, key);
    if fuzzy.Some? {
      return fuzzy.value, Classifier(c.store + [Registration(key, fuzzy.value)], c.nextId);
    }
    id := c.nextId;
    next := Classifier(c.store + [Registration(key, id)], c.nextId + 1);
  }

  /** Classifying the same raw name twice gives the same id and the second
      call changes nothing. */
  lemma RepeatedCall(c: Classifier, txt: string)
    requires Valid(c)
    ensures Classify(Classify(c, txt).state, txt) == Classify(c, txt)
  {
  }

  /** Raw names with the same key get the same id, in either order, and so do
      raw names that differ only in segment order, case, spaces or
      asterisks. */
  lemma SameKeySameId(c: Classifier, a: string, b: string)
    requires Valid(c)
    requires multiset(Segments(a)) == multiset(Segments(b))
    ensures Classify(c, a).id == Classify(c, b).id
    ensures Classify(Classify(c, a).state, b).id == Classify(c, a).id
  {
    CleanEqualIff(a, b);
  }

  datatype Run = Run(ids: seq<nat>, state: Classifier)

  /** A session: classifying `txts` one after another from state `c`. Every
      id handed out is in range, every name's key still maps to the id it was
      given, earlier keys keep their ids, and the ids allocated during the
      session are exactly `c.nextId`, `c.nextId + 1`, ... with none skipped. */
  function ClassifyAll(c: Classifier, txts: seq<string>): (r: Run)
    requires Valid(c)
    ensures Valid(r.state) && |r.ids| == |txts|
    ensures forall i :: 0 <= i < |txts| ==> 1 <= r.ids[i] < r.state.nextId
    ensures forall i :: 0 <= i < |txts| ==> Lookup(r.state.store, Clean(txts[i])) == Some(r.ids[i])
    ensures forall k :: Lookup(c.store, k).Some? ==> Lookup(r.state.store, k) == Lookup(c.store, k)
    ensures c.nextId <= r.state.nextId <= c.nextId + |txts|
    ensures forall v :: c.nextId <= v < r.state.nextId ==> v in r.ids
  {
    if |txts| == 0 then Run([], c)
    else
      var before := ClassifyAll(c, txts[..|txts| - 1]);
      var step := Classify(before.state, txts[|txts| - 1]);
      var r := Run(before.ids + [step.id], step.state);
      ClassifyAllStep(c, txts, before, step, r);
      r
  }

  lemma ClassifyAllStep(c: Classifier, txts: seq<string>, before: Run, step: Classified, r: Run)
    requires Valid(c) && |txts| > 0
    requires Valid(before.state) && |before.ids| == |txts| - 1
    requires forall i :: 0 <= i < |txts| - 1 ==> 1 <= before.ids[i] < before.state.nextId
    requires forall i :: 0 <= i < |txts| - 1 ==> Lookup(before.state.store, Clean(txts[..|txts| - 1][i])) == Some(before.ids[i])
    requires forall k :: Lookup(c.store, k).Some? ==> Lookup(before.state.store, k) == Lookup(c.store, k)
    requires c.nextId <= before.state.nextId <= c.nextId + |txts| - 1
    requires forall v :: c.nextId <= v < before.state.nextId ==> v in before.ids
    requires 1 <= step.id < step.state.nextId
    requires Lookup(step.state.store, Clean(txts[|txts| - 1])) == Some(step.id)
    requires forall k :: Lookup(before.state.store, k).Some? ==> Lookup(step.state.store, k) == Lookup(before.state.store, k)
    requires before.state.nextId <= step.state.nextId <= before.state.nextId + 1
    requires step.state.nextId == before.state.nextId + 1 ==> step.id == before.state.nextId
    requires r == Run(before.ids + [step.id], step.state)
    ensures forall i :: 0 <= i < |txts| ==> 1 <= r.ids[i] < r.state.nextId
    ensures forall i :: 0 <= i < |txts| ==> Lookup(r.state.store, Clean(txts[i])) == Some(r.ids[i])
    ensures forall k :: Lookup(c.store, k).Some? ==> Lookup(r.state.store, k) == Lookup(c.store, k)
    ensures forall v :: c.nextId <= v < r.state.nextId ==> v in r.ids
  {
    forall i | 0 <= i < |txts| - 1
      ensures Lookup(r.state.store, Clean(txts[i])) == Some(r.ids[i])
    {
      assert txts[..|txts| - 1][i] == txts[i];
      assert r.ids[i] == before.ids[i];
    }
    NoIdSkipped(c.nextId, before.ids, before.state.nextId, step.id, step.state.nextId);
  }

  /** Handing out at most the next id keeps the handed-out ids gap-free. */
  lemma NoIdSkipped(lo: nat, ids: seq<nat>, next: nat, id: nat, next': nat)
    requires forall v :: lo <= v < next ==> v in ids
    requires next <= next' <= next + 1
    requires next' == next + 1 ==> id == next
    ensures forall v :: lo <= v < next' ==> v in ids + [id]
  {
    forall v | lo <= v < next'
      ensures v in ids + [id]
    {
      if v < next {
        assert v in ids;
      } else {
        assert (ids + [id])[|ids|] == v;
      }
    }
  }

  /** Over a whole session, equal keys always receive equal ids: an id, once
      given to a key, is never reassigned. */
  lemma StableIdentity(c: Classifier, txts: seq<string>, i: nat, j: nat)
    requires Valid(c) && i < |txts| && j < |txts|
    requires Clean(txts[i]) == Clean(txts[j])
    ensures ClassifyAll(c, txts).ids[i] == ClassifyAll(c, txts).ids[j]
  {
  }
}
