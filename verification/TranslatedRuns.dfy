/** Translated routes over whole runs.  Requests carry no id there: a response finds the
    map of its request by the aliased names alone.  Which map that is, how long it is
    kept, and what the reply is restored to. */
module TranslatedRuns {
  import opened Text
  import opened ToolNames
  import opened RewriteMap
  import opened RoundTrip
  import opened RequestBody
  import opened RewriteStore
  import opened ToolsKey
  import opened TranslatedRoute

  // ---------- runs as histories of requests ----------

  function Run(obfuscate: bool, es: seq<Event>, hash: Hash): State {
    if es == [] then State(obfuscate, After(STORE_CAPACITY, []))
    else Step(Run(obfuscate, es[..|es| - 1], hash), es[|es| - 1], hash)
  }

  function ConfigAfter(obfuscate: bool, es: seq<Event>): bool {
    if es == [] then obfuscate
    else if es[|es| - 1].Configure? then es[|es| - 1].obfuscate
    else ConfigAfter(obfuscate, es[..|es| - 1])
  }

  /** The requests of a run whose names were aliased: translated ones, while names are
      obfuscated. */
  function Stored(obfuscate: bool, es: seq<Event>): seq<Request> {
    if es == [] then []
    else
      var init, e := es[..|es| - 1], es[|es| - 1];
      Stored(obfuscate, init) + if e.Normalize? && e.translated && ConfigAfter(obfuscate, init) then [e.request] else []
  }

  function CallsOf(rs: seq<Request>, hash: Hash): (calls: seq<Call>)
    ensures |calls| == |rs| && forall k :: 0 <= k < |rs| ==> calls[k] == CallOf(rs[k], hash)
  {
    seq(|rs|, k requires 0 <= k < |rs| => CallOf(rs[k], hash))
  }

  /** The store after the requests. */
  function StoreAfter(rs: seq<Request>, hash: Hash): Store {
    After(STORE_CAPACITY, CallsOf(rs, hash))
  }

  lemma OneMoreRequest(rs: seq<Request>, r: Request, hash: Hash)
    ensures CallsOf(rs + [r], hash) == CallsOf(rs, hash) + [CallOf(r, hash)]
  {
  }

  /** The state of a run is the configuration last set, and the store after its requests. */
  lemma {:induction false} RunIsHistory(obfuscate: bool, es: seq<Event>, hash: Hash)
    ensures Run(obfuscate, es, hash) == State(ConfigAfter(obfuscate, es), StoreAfter(Stored(obfuscate, es), hash))
  {
    hide CallOf;
    if es == [] {
      assert CallsOf([], hash) == [];
    } else {
      var init, e := es[..|es| - 1], es[|es| - 1];
      RunIsHistory(obfuscate, init, hash);
      if Puts(ConfigAfter(obfuscate, init), e) {
        OneMoreRequest(Stored(obfuscate, init), e.request, hash);
        OneMoreCall(STORE_CAPACITY, CallsOf(Stored(obfuscate, init), hash), CallOf(e.request, hash));
        CallOfRequest(e.request, hash);
      } else {
        assert Stored(obfuscate, es) == Stored(obfuscate, init);
      }
    }
  }

  lemma CallOfRequest(r: Request, hash: Hash)
    ensures CallOf(r, hash).rw == r.rw
  {
  }

  // ---------- possible requests ----------

  /** A name never holds a zero byte, the terminator of the hashed list. */
  ghost predicate NulFreeNames(body: Body) {
    body.tools.Some? ==> NulFree(KeyNames(body.tools.value))
  }

  /** Requests as they can come in, each with a map the builder may make for it. */
  ghost predicate PossibleRequests(rs: seq<Request>) {
    rs == [] || (PossibleRequests(rs[..|rs| - 1]) && Made(rs[|rs| - 1]) && NulFreeNames(rs[|rs| - 1].body))
  }

  lemma {:induction false} PossibleRequestAt(rs: seq<Request>, k: nat)
    requires PossibleRequests(rs) && k < |rs|
    ensures Made(rs[k]) && NulFreeNames(rs[k].body)
  {
    hide Made, NulFreeNames;
    if k < |rs| - 1 {
      PossibleRequestAt(rs[..|rs| - 1], k);
    }
  }

  /** The hash tells the lists of different requests of the run apart. */
  ghost predicate NoCollisions(rs: seq<Request>, hash: Hash) {
    forall j, k :: 0 <= j < |rs| && 0 <= k < |rs| ==> NoCollision(KeyList(Sent(rs[j])), KeyList(Sent(rs[k])), hash)
  }

  /** The request has tools, and some of them are renamed. */
  predicate Renaming(r: Request) {
    r.body.tools.Some? && !Empty(r.rw)
  }

  function OwnNames(r: Request): seq<string> {
    ToolNamesOf(r.body)
  }

  function OwnMap(r: Request): map<string, string>
    requires Renaming(r)
  {
    r.rw.value.forward
  }

  lemma OwnMapIsBuilt(r: Request)
    requires Made(r) && Renaming(r)
    ensures OwnMap(r) == ForwardOf(OwnNames(r), true, r.available) != map[]
    ensures LongestFirst(r.rw.value.reverseOrdered) && Lists(r.rw.value.reverseOrdered, ReverseMap(OwnNames(r), OwnMap(r)))
    ensures RenamesListed(OwnMap(r), OwnNames(r))
    ensures "" !in OwnMap(r) && forall n :: n in OwnMap(r) ==> OwnMap(r)[n] != ""
  {
    hide ForwardMap, MimicableNames, PoolShaped, Distinct, DynamicAliases, ReverseMap, Lists, LongestFirst;
    ForwardMapFits(r.body.tools.value, true, r.available);
    NamesNotEmpty(r.body.tools.value);
    ForwardIsListed(OwnNames(r), DynamicAliases(OwnNames(r), true, r.available));
  }

  lemma ForwardIsListed(names: seq<string>, dynamic: Option<map<string, string>>)
    ensures RenamesListed(ForwardMap(names, dynamic), names)
  {
  }

  lemma NamesNotEmpty(tools: seq<Tool>)
    ensures "" !in MimicableNames(tools)
  {
  }

  /** The key of a request is made of its aliased names. */
  lemma SentNames(r: Request)
    requires Made(r) && Renaming(r)
    ensures KeyList(Sent(r)) == Aliased(KeyNames(r.body.tools.value), OwnMap(r))
    ensures Named(KeyList(Sent(r))) == Aliased(OwnNames(r), OwnMap(r))
  {
    hide Made, KeyNames, Named, MimicableNames, Aliased, RenamedTool;
    OwnMapIsBuilt(r);
    KeyNamesOfRenamed(r.body.tools.value, OwnMap(r));
    NamedKeyNames(r.body.tools.value);
    NamedAliased(KeyNames(r.body.tools.value), OwnMap(r));
  }

  lemma SentNulFree(r: Request)
    requires Made(r) && Renaming(r) && NulFreeNames(r.body)
    ensures NulFree(KeyList(Sent(r)))
  {
    hide KeyNames, Sent, KeyList, ForwardOf, IsRewriteOf, PoolShaped, Distinct;
    SentNames(r);
    OwnMapIsBuilt(r);
    var names := KeyNames(r.body.tools.value);
    forall k | 0 <= k < |names| ensures '\0' !in Aliased(names, OwnMap(r))[k] {
      if names[k] in OwnMap(r) {
        AliasBringsNoOther(OwnNames(r), true, r.available, names[k], '\0');
      }
    }
  }

  lemma SentKey(r: Request, hash: Hash)
    requires Made(r) && Renaming(r)
    ensures CallOf(r, hash).key == KeyOfNames(KeyList(Sent(r)), hash) != ""
  {
    SentNames(r);
    OwnMapIsBuilt(r);
    hide KeyNames, Sent, KeyList, Aliased, IsRewriteOf, Arrangement;
    var n :| n in OwnMap(r);
    assert Aliased(OwnNames(r), OwnMap(r)) != [] ==> KeyList(Sent(r)) != [];
    assert |Aliased(OwnNames(r), OwnMap(r))| == |OwnNames(r)|;
  }

  /** Requests under one key have the same aliased names. */
  lemma SameKeySameAliases(r: Request, q: Request, hash: Hash)
    requires NoCollision(KeyList(Sent(r)), KeyList(Sent(q)), hash)
    requires Made(r) && Made(q) && NulFreeNames(r.body) && NulFreeNames(q.body)
    requires Renaming(r) && Renaming(q) && CallOf(r, hash).key == CallOf(q, hash).key
    ensures Aliased(OwnNames(r), OwnMap(r)) == Aliased(OwnNames(q), OwnMap(q))
  {
    hide Made, KeyNames, Sent, KeyList, NoCollision, Aliased, CallOf, KeyOfNames, NulFreeNames;
    SentKey(r, hash);
    SentKey(q, hash);
    SentNulFree(r);
    SentNulFree(q);
    SentNames(r);
    SentNames(q);
    KeyIdentifiesNames(KeyList(Sent(r)), KeyList(Sent(q)), hash);
  }

  // ---------- whose map is found ----------

  /** Request `k` is the last one to put a map under `key`. */
  ghost predicate LatestUnder(rs: seq<Request>, k: nat, key: string, hash: Hash) {
    && k < |rs| && CallOf(rs[k], hash).key == key && !Empty(rs[k].rw)
    && forall j :: k < j < |rs| && !Empty(rs[j].rw) ==> CallOf(rs[j], hash).key != key
  }

  lemma FoundIsLatest(rs: seq<Request>, k: nat, key: string, hash: Hash)
    requires key != "" && LatestUnder(rs, k, key, hash)
    ensures var found := StoreAfter(rs, hash).Get(key); found.Some? ==> found == rs[k].rw
  {
    var calls := CallsOf(rs, hash);
    StoreReflectsHistory(STORE_CAPACITY, calls);
    LatestIs(calls, k, key);
  }

  lemma {:induction false} SomeLatest(rs: seq<Request>, i: nat, key: string, hash: Hash) returns (k: nat)
    requires i < |rs| && CallOf(rs[i], hash).key == key && !Empty(rs[i].rw)
    ensures LatestUnder(rs, k, key, hash)
    decreases |rs| - i
  {
    hide CallOf, Empty;
    k := i;
    if j :| i < j < |rs| && !Empty(rs[j].rw) && CallOf(rs[j], hash).key == key {
      k := SomeLatest(rs, j, key, hash);
    }
  }

  /** What a request finds under its own key is the map of the latest request with the
      same aliased names; it is the request's own map when that one declared the same
      names in the same order, and, if aliases are distinct, only then. */
  lemma OwnMapFoundExactly(rs: seq<Request>, i: nat, k: nat, hash: Hash)
    requires NoCollisions(rs, hash) && PossibleRequests(rs)
    requires i < |rs| && Renaming(rs[i]) && LatestUnder(rs, k, CallOf(rs[i], hash).key, hash)
    ensures Renaming(rs[k])
    ensures var found := StoreAfter(rs, hash).Get(CallOf(rs[i], hash).key); found.Some? ==> found == rs[k].rw
    ensures Aliased(OwnNames(rs[k]), OwnMap(rs[k])) == Aliased(OwnNames(rs[i]), OwnMap(rs[i]))
    ensures OwnNames(rs[k]) == OwnNames(rs[i]) ==> OwnMap(rs[k]) == OwnMap(rs[i])
    ensures Injective(OwnMap(rs[i])) && OwnMap(rs[k]) == OwnMap(rs[i]) ==> OwnNames(rs[k]) == OwnNames(rs[i])
  {
    hide Made, NulFreeNames, CallOf, Aliased, Injective, RenamesListed, PossibleRequests, NoCollision;
    PossibleRequestAt(rs, i);
    PossibleRequestAt(rs, k);
    SentKey(rs[i], hash);
    FoundIsLatest(rs, k, CallOf(rs[i], hash).key, hash);
    KeyNeedsTools(rs[k], hash);
    SameKeySameAliases(rs[k], rs[i], hash);
    OwnMapIsBuilt(rs[i]);
    OwnMapIsBuilt(rs[k]);
    SharedKeyMaps(OwnNames(rs[i]), OwnMap(rs[i]), OwnNames(rs[k]), OwnMap(rs[k]));
  }

  lemma KeyNeedsTools(r: Request, hash: Hash)
    requires CallOf(r, hash).key != ""
    ensures r.body.tools.Some?
  {
  }

  /** No request of the run with other names agrees with request `i` at every entry:
      in alias prefixes and heads where both rename, in the name sent elsewhere. */
  ghost predicate Unshared(rs: seq<Request>, i: nat)
    requires i < |rs|
  {
    forall k :: 0 <= k < |rs| && Renaming(rs[k]) && OwnNames(rs[k]) != OwnNames(rs[i]) ==> !AgreeThroughout(rs[k], rs[i])
  }

  ghost predicate AgreeThroughout(r: Request, q: Request) {
    && |r.available| == POOL_SIZE && |q.available| == POOL_SIZE && |OwnNames(r)| == |OwnNames(q)|
    && forall p :: 0 <= p < |OwnNames(r)| ==> EntryAgrees(OwnNames(r), r.available, OwnNames(q), q.available, p)
  }

  lemma AgreeThroughoutExactly(r: Request, q: Request)
    requires Made(r) && Made(q) && Renaming(r) && Renaming(q)
    ensures Aliased(OwnNames(r), OwnMap(r)) == Aliased(OwnNames(q), OwnMap(q)) <==> AgreeThroughout(r, q)
  {
    hide EntryAgrees, Aliased, IsRewriteOf, PoolShaped, Distinct, ForwardOf;
    OwnMapIsBuilt(r);
    OwnMapIsBuilt(q);
    KeysSharedExactly(OwnNames(r), r.available, OwnNames(q), q.available);
  }

  /** The found map renames and restores like the request's own. */
  ghost predicate ActsAs(found: Option<Rewrite>, names: seq<string>, forward: map<string, string>) {
    && found.Some? && found.value.forward == forward
    && LongestFirst(found.value.reverseOrdered) && Lists(found.value.reverseOrdered, ReverseMap(names, forward))
  }

  /** A request of any length finds its own map, if it finds one, unless the run holds
      a request with other names that agrees with it at every entry. */
  lemma OwnMapFound(rs: seq<Request>, i: nat, hash: Hash)
    requires NoCollisions(rs, hash) && PossibleRequests(rs)
    requires i < |rs| && Renaming(rs[i]) && Unshared(rs, i)
    ensures var found := StoreAfter(rs, hash).Get(CallOf(rs[i], hash).key);
      found.Some? ==> ActsAs(found, OwnNames(rs[i]), OwnMap(rs[i]))
  {
    hide Made, CallOf, Aliased, AgreeThroughout, NoCollisions, PossibleRequests, Lists, LongestFirst, StoreAfter;
    var k := SomeLatest(rs, i, CallOf(rs[i], hash).key, hash);
    OwnMapFoundExactly(rs, i, k, hash);
    PossibleRequestAt(rs, i);
    PossibleRequestAt(rs, k);
    AgreeThroughoutExactly(rs[k], rs[i]);
    OwnMapIsBuilt(rs[k]);
  }

  /** No name begins like a static alias. */
  ghost predicate Plain(names: seq<string>) {
    forall n, r: StaticRule :: n in names ==> !(r.Replacement() <= n)
  }

  /** Up to five names, however many of them renamed, nobody shares the key when no
      request of the run declares a name that begins like a static alias. */
  lemma PlainUnshared(rs: seq<Request>, i: nat)
    requires PossibleRequests(rs) && i < |rs| && Renaming(rs[i]) && |OwnNames(rs[i])| <= 5
    requires forall k :: 0 <= k < |rs| ==> Plain(OwnNames(rs[k]))
    ensures Unshared(rs, i)
  {
    hide Made, AgreeThroughout, Aliased, PossibleRequests, StaticRenames;
    forall k | 0 <= k < |rs| && Renaming(rs[k]) && AgreeThroughout(rs[k], rs[i]) ensures OwnNames(rs[k]) == OwnNames(rs[i]) {
      PossibleRequestAt(rs, i);
      PossibleRequestAt(rs, k);
      AgreeThroughoutExactly(rs[k], rs[i]);
      ShortIsStatic(rs[k]);
      ShortIsStatic(rs[i]);
      assert Plain(OwnNames(rs[k])) && Plain(OwnNames(rs[i]));
      assert |OwnNames(rs[k])| == |Aliased(OwnNames(rs[k]), OwnMap(rs[k]))|;
      assert |OwnNames(rs[i])| == |Aliased(OwnNames(rs[i]), OwnMap(rs[i]))|;
      PlainNamesDecodable(OwnNames(rs[k]), OwnNames(rs[i]));
    }
  }

  lemma ShortIsStatic(r: Request)
    requires Made(r) && Renaming(r)
    ensures |OwnNames(r)| <= 5 ==> OwnMap(r) == StaticRenames(OwnNames(r)) != map[]
  {
    hide Arrangement;
    OwnMapIsBuilt(r);
  }

  /** Nor does it when the request is not an ambiguous one, whatever the run holds. */
  lemma UnambiguousUnshared(rs: seq<Request>, i: nat)
    requires PossibleRequests(rs) && i < |rs| && Renaming(rs[i]) && |OwnNames(rs[i])| <= 5
    requires !Ambiguous(OwnNames(rs[i]))
    ensures Unshared(rs, i)
  {
    hide Made, AgreeThroughout, Aliased, PossibleRequests, StaticRenames, Injective, RenamesListed;
    forall k | 0 <= k < |rs| && Renaming(rs[k]) && AgreeThroughout(rs[k], rs[i]) ensures OwnNames(rs[k]) == OwnNames(rs[i]) {
      var r, q := rs[k], rs[i];
      PossibleRequestAt(rs, i);
      PossibleRequestAt(rs, k);
      AgreeThroughoutExactly(r, q);
      ShortIsStatic(r);
      ShortIsStatic(q);
      assert |OwnNames(r)| == |Aliased(OwnNames(r), OwnMap(r))|;
      assert |OwnNames(q)| == |Aliased(OwnNames(q), OwnMap(q))|;
      assert SharesKey(OwnNames(q), OwnNames(r));
      OwnMapIsBuilt(r);
      OwnMapIsBuilt(q);
      StaticRenamesInjective(OwnNames(r));
      SharedKeyMaps(OwnNames(r), OwnMap(r), OwnNames(q), OwnMap(q));
    }
  }

  lemma StaticRenamesInjective(names: seq<string>)
    ensures Injective(StaticRenames(names))
  {
    var m := StaticRenames(names);
    forall a, b | a in m && b in m && m[a] == m[b] ensures a == b {
      StaticAliasInjective(a, b);
    }
  }

  // ---------- how long it is kept ----------

  /** Request `t` admits `key`: the key was not in the store when its map was put. */
  ghost predicate AdmittedAt(rs: seq<Request>, t: nat, key: string, hash: Hash) {
    && t < |rs| && key != "" && CallOf(rs[t], hash) == Call(key, rs[t].rw) && !Empty(rs[t].rw)
    && key !in StoreAfter(rs[..t], hash).items
  }

  /** The keys admitted after request `t`. */
  function AdmittedAfter(rs: seq<Request>, t: nat, hash: Hash): seq<string>
    requires t < |rs|
  {
    AdmittedSince(STORE_CAPACITY, CallsOf(rs[..t + 1], hash), CallsOf(rs[t + 1..], hash))
  }

  /** A map is found exactly while fewer than 2048 keys were admitted after its own.
      A later put under the same key replaces the map and does not count again. */
  lemma MapKeptExactly(rs: seq<Request>, t: nat, key: string, hash: Hash)
    requires AdmittedAt(rs, t, key, hash)
    ensures var later, found := AdmittedAfter(rs, t, hash), StoreAfter(rs, hash).Get(key);
      && (|later| < 2048 ==> key !in later)
      && (key !in later ==> (found.Some? <==> |later| < 2048))
  {
    hide CallOf, Admissions, Newest;
    var before, now, more := CallsOf(rs[..t], hash), CallsOf(rs[..t + 1], hash), CallsOf(rs[t + 1..], hash);
    assert rs[..t + 1] == rs[..t] + [rs[t]];
    OneMoreRequest(rs[..t], rs[t], hash);
    assert now + more == CallsOf(rs, hash);
    StoreReflectsHistory(STORE_CAPACITY, before);
    Retention(STORE_CAPACITY, before, key, rs[t].rw, more);
    if |AdmittedAfter(rs, t, hash)| < STORE_CAPACITY {
      GetsItem(StoreAfter(rs, hash), key);
    }
  }

  lemma GetsItem(s: Store, key: string)
    requires key != ""
    ensures s.Get(key).Some? <==> key in s.items
  {
  }
}
