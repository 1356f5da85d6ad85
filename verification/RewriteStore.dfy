/** The bounded store that carries a rename map from a request to its responses. */
module RewriteStore {
  import opened Text
  import opened RewriteMap

  /** Of both stores of the plugin. */
  const STORE_CAPACITY := 2048

  // ---------- the value of a store ----------

  /** Entries and the order in which their keys were admitted. */
  datatype Store = Store(capacity: nat, items: map<string, Rewrite>, order: seq<string>) {

    ghost predicate Valid() {
      && |order| <= capacity
      && (forall i, j :: 0 <= i < j < |order| ==> order[i] != order[j])
      && (forall k :: k in items <==> k in order)
    }

    predicate Accepts(key: string, rw: Option<Rewrite>) {
      key != "" && !Empty(rw)
    }

    /** Admits or overwrites, then drops the oldest while over capacity. */
    function Put(key: string, rw: Option<Rewrite>): Store {
      if !Accepts(key, rw) then this
      else
        var admitted := if key in items then order else order + [key];
        Store(capacity, items[key := rw.value], admitted).Evict()
    }

    function Evict(): Store
      decreases |order|
    {
      if |order| <= capacity then this
      else Store(capacity, items - {order[0]}, order[1..]).Evict()
    }

    function Get(key: string): Option<Rewrite> {
      if key != "" && key in items then Some(items[key]) else None
    }
  }

  lemma TailMembers(order: seq<string>)
    requires order != [] && forall i, j :: 0 <= i < j < |order| ==> order[i] != order[j]
    ensures forall k :: k in order[1..] <==> k in order && k != order[0]
  {
  }

  /** What a put that admits a key leaves behind. */
  lemma PutAdmits(s: Store, key: string, rw: Option<Rewrite>)
    requires s.Valid() && s.Accepts(key, rw) && key !in s.items
    ensures var items, order := s.items[key := rw.value], s.order + [key];
      s.Put(key, rw) == if |order| <= s.capacity then Store(s.capacity, items, order)
                        else Store(s.capacity, items - {order[0]}, order[1..])
  {
    var items, order := s.items[key := rw.value], s.order + [key];
    if |order| > s.capacity {
      var out := Store(s.capacity, items - {order[0]}, order[1..]);
      assert out.Evict() == out;
    }
  }

  lemma PutKeepsValid(s: Store, key: string, rw: Option<Rewrite>)
    requires s.Valid()
    ensures s.Put(key, rw).Valid()
    ensures s.Put(key, rw).capacity == s.capacity
  {
    if s.Accepts(key, rw) && key !in s.items {
      PutAdmits(s, key, rw);
      TailMembers(s.order + [key]);
    }
  }

  // ---------- the history model ----------

  /** The calls of put so far, oldest first. */
  datatype Call = Call(key: string, rw: Option<Rewrite>)

  function After(capacity: nat, calls: seq<Call>): Store {
    if calls == [] then Store(capacity, map[], [])
    else
      var last := calls[|calls| - 1];
      After(capacity, calls[..|calls| - 1]).Put(last.key, last.rw)
  }

  function Newest(log: seq<string>, n: nat): seq<string> {
    if |log| <= n then log else log[|log| - n..]
  }

  /** The keys admitted by the calls, in order: a call admits its key when that key
      is not among the `capacity` keys admitted last. */
  function Admissions(capacity: nat, calls: seq<Call>): seq<string> {
    if calls == [] then []
    else
      var before, last := Admissions(capacity, calls[..|calls| - 1]), calls[|calls| - 1];
      if last.key != "" && !Empty(last.rw) && last.key !in Newest(before, capacity)
      then before + [last.key] else before
  }

  /** The map of the latest effective call for a key. */
  function Latest(calls: seq<Call>, key: string): Option<Rewrite> {
    if calls == [] then None
    else
      var last := calls[|calls| - 1];
      if last.key == key && key != "" && !Empty(last.rw) then last.rw else Latest(calls[..|calls| - 1], key)
  }

  /** All three, one call later. */
  lemma OneMoreCall(capacity: nat, calls: seq<Call>, c: Call)
    ensures After(capacity, calls + [c]) == After(capacity, calls).Put(c.key, c.rw)
    ensures Admissions(capacity, calls + [c])
         == if c.key != "" && !Empty(c.rw) && c.key !in Newest(Admissions(capacity, calls), capacity)
            then Admissions(capacity, calls) + [c.key] else Admissions(capacity, calls)
    ensures forall k :: Latest(calls + [c], k) == if c.key == k && k != "" && !Empty(c.rw) then c.rw else Latest(calls, k)
  {
  }

  ghost predicate Reflects(s: Store, capacity: nat, calls: seq<Call>) {
    && s.capacity == capacity
    && s.Valid()
    && s.order == Newest(Admissions(capacity, calls), capacity)
    && forall k :: k in s.items ==> Latest(calls, k) == Some(s.items[k])
  }

  /** In every reachable state the order is the newest admissions and every entry
      holds the latest map put under its key. */
  lemma {:induction false} StoreReflectsHistory(capacity: nat, calls: seq<Call>)
    ensures Reflects(After(capacity, calls), capacity, calls)
  {
    if calls != [] {
      StoreReflectsHistory(capacity, calls[..|calls| - 1]);
      ReflectStep(capacity, calls);
    }
  }

  lemma ReflectStep(capacity: nat, calls: seq<Call>)
    requires calls != [] && Reflects(After(capacity, calls[..|calls| - 1]), capacity, calls[..|calls| - 1])
    ensures Reflects(After(capacity, calls), capacity, calls)
  {
    var s, last := After(capacity, calls[..|calls| - 1]), calls[|calls| - 1];
    PutKeepsValid(s, last.key, last.rw);
    if s.Accepts(last.key, last.rw) && last.key !in s.items {
      PutAdmits(s, last.key, last.rw);
      NewestExtend(Admissions(capacity, calls[..|calls| - 1]), last.key, capacity);
    }
    forall k | k in s.Put(last.key, last.rw).items
      ensures Latest(calls, k) == Some(s.Put(last.key, last.rw).items[k])
    {
    }
  }

  lemma NewestExtend(log: seq<string>, key: string, n: nat)
    ensures var order := Newest(log, n) + [key];
      Newest(log + [key], n) == if |order| <= n then order else order[1..]
  {
  }

  // ---------- retention ----------

  lemma {:induction false} AdmissionsGrow(capacity: nat, calls: seq<Call>, more: seq<Call>)
    ensures Admissions(capacity, calls) <= Admissions(capacity, calls + more)
    decreases |more|
  {
    if more == [] {
      assert calls + more == calls;
    } else {
      var init := more[..|more| - 1];
      assert (calls + more)[..|calls + more| - 1] == calls + init;
      AdmissionsGrow(capacity, calls, init);
    }
  }

  /** The keys admitted by `more` after `calls`. */
  function AdmittedSince(capacity: nat, calls: seq<Call>, more: seq<Call>): seq<string> {
    AdmissionsGrow(capacity, calls, more);
    Admissions(capacity, calls + more)[|Admissions(capacity, calls)|..]
  }

  /** A key just admitted stays for exactly `capacity` admissions of other keys. */
  lemma Retention(capacity: nat, calls: seq<Call>, key: string, rw: Option<Rewrite>, more: seq<Call>)
    requires key != "" && !Empty(rw)
    requires key !in Newest(Admissions(capacity, calls), capacity)
    ensures var now := calls + [Call(key, rw)];
      var later := AdmittedSince(capacity, now, more);
      && (|later| < capacity ==> key !in later)
      && (key !in later ==>
            (key in After(capacity, now + more).items <==> |later| < capacity))
      && (|later| < capacity ==> After(capacity, now + more).Get(key) == Latest(now + more, key))
  {
    var now := calls + [Call(key, rw)];
    OneMoreCall(capacity, calls, Call(key, rw));
    AdmissionsGrow(capacity, now, more);
    StoreReflectsHistory(capacity, now + more);
    NeverTwice(capacity, now + more);
    var log, later := Admissions(capacity, calls), AdmittedSince(capacity, now, more);
    assert Admissions(capacity, now + more) == log + [key] + later;
    StaysInWindow(log, key, later, capacity);
  }

  /** The same fact about a list of admissions. */
  lemma StaysInWindow(log: seq<string>, key: string, later: seq<string>, capacity: nat)
    requires Spaced(log + [key] + later, capacity)
    ensures |later| < capacity ==> key !in later && key in Newest(log + [key] + later, capacity)
    ensures |later| >= capacity && key !in later ==> key !in Newest(log + [key] + later, capacity)
  {
    var all := log + [key] + later;
    assert all[|log|] == key;
    forall j | 0 <= j < |later| && later[j] == key ensures j + 1 > capacity {
      assert all[|log| + 1 + j] == key;
    }
    if |later| < capacity {
      NewestHas(all, capacity, |log|);
    } else {
      assert Newest(all, capacity) == later[|later| - capacity..];
    }
  }

  ghost predicate Spaced(log: seq<string>, capacity: nat) {
    forall i, j :: 0 <= i < j < |log| && log[i] == log[j] ==> j - i > capacity
  }

  lemma NewestHas(log: seq<string>, n: nat, i: nat)
    requires i < |log| && |log| - i <= n
    ensures log[i] in Newest(log, n)
  {
  }

  /** The same key is admitted again only after `capacity` others were. */
  lemma {:induction false} NeverTwice(capacity: nat, calls: seq<Call>)
    ensures Spaced(Admissions(capacity, calls), capacity)
  {
    if calls != [] {
      var before, log := Admissions(capacity, calls[..|calls| - 1]), Admissions(capacity, calls);
      NeverTwice(capacity, calls[..|calls| - 1]);
      forall i, j | 0 <= i < j < |log| && log[i] == log[j] ensures j - i > capacity {
        if j == |before| && j - i <= capacity {
          NewestHas(before, capacity, i);
        }
      }
    }
  }

  lemma {:induction false} LatestComesFrom(calls: seq<Call>, key: string)
    ensures Latest(calls, key).Some? ==> Call(key, Latest(calls, key)) in calls && !Empty(Latest(calls, key))
  {
    if calls != [] {
      LatestComesFrom(calls[..|calls| - 1], key);
    }
  }

  /** The last effective call for a key is the latest. */
  lemma {:induction false} LatestIs(calls: seq<Call>, k: nat, key: string)
    requires k < |calls| && key != "" && calls[k].key == key && !Empty(calls[k].rw)
    requires forall j :: k < j < |calls| && !Empty(calls[j].rw) ==> calls[j].key != key
    ensures Latest(calls, key) == calls[k].rw
  {
    if k < |calls| - 1 {
      LatestIs(calls[..|calls| - 1], k, key);
    }
  }

  lemma {:induction false} LatestUnchanged(calls: seq<Call>, more: seq<Call>, key: string)
    requires forall c :: c in more ==> c.key != key
    ensures Latest(calls + more, key) == Latest(calls, key)
    decreases |more|
  {
    if more == [] {
      assert calls + more == calls;
    } else {
      var init := more[..|more| - 1];
      assert (calls + more)[..|calls + more| - 1] == calls + init;
      assert more[|more| - 1] in more;
      LatestUnchanged(calls, init, key);
    }
  }

  lemma {:induction false} AdmissionsComeFrom(capacity: nat, calls: seq<Call>, key: string)
    requires forall c :: c in calls ==> c.key != key
    ensures key !in Admissions(capacity, calls)
  {
    if calls != [] {
      assert calls[|calls| - 1] in calls;
      AdmissionsComeFrom(capacity, calls[..|calls| - 1], key);
    }
  }

  lemma {:induction false} AdmittedFrom(capacity: nat, calls: seq<Call>, more: seq<Call>, key: string)
    requires forall c :: c in more ==> c.key != key
    ensures key !in AdmittedSince(capacity, calls, more)
    decreases |more|
  {
    AdmissionsGrow(capacity, calls, more);
    if more == [] {
      assert calls + more == calls;
    } else {
      var init, last := more[..|more| - 1], more[|more| - 1];
      assert last in more && calls + more == (calls + init) + [last];
      AdmittedFrom(capacity, calls, init, key);
      AdmissionsGrow(capacity, calls, init);
      OneMoreCall(capacity, calls + init, last);
    }
  }

  // ---------- the mutable store ----------

  class BoundedRewriteStore {
    const capacity: nat
    var items: map<string, Rewrite>
    var order: seq<string>

    ghost function Model(): Store
      reads this
    {
      Store(capacity, items, order)
    }

    constructor (capacity: nat)
      ensures this.capacity == capacity && Model() == After(capacity, [])
    {
      this.capacity := capacity;
      items := map[];
      order := [];
    }

    method Put(key: string, rw: Option<Rewrite>)
      modifies this
      ensures Model() == old(Model()).Put(key, rw)
    {
      if key == "" || Empty(rw) {
        return;
      }
      if key !in items {
        order := order + [key];
      }
      items := items[key := rw.value];
      while |order| > capacity
        invariant Model().Evict() == old(Model()).Put(key, rw)
      {
        var oldest := order[0];
        order := order[1..];
        items := items - {oldest};
      }
    }

    method Get(key: string) returns (rw: Option<Rewrite>)
      ensures rw == Model().Get(key)
    {
      if key == "" {
        return None;
      }
      if key in items {
        return Some(items[key]);
      }
      return None;
    }
  }
}
