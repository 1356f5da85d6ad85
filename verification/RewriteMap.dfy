/** The rename map of one request: how it is built from the tool names, and what
    reversing it does to response bytes. */
module RewriteMap {
  import opened Text
  import opened ToolNames

  /** `forward` maps real names to aliases; `reverseOrdered` lists (alias, real)
      pairs, longest alias first. */
  datatype Rewrite = Rewrite(forward: map<string, string>, reverseOrdered: seq<(string, string)>)

  /** A nil rewrite and one with an empty map mean the same. */
  predicate Empty(rw: Option<Rewrite>) {
    rw.None? || |rw.value.forward| == 0
  }

  const DYNAMIC_THRESHOLD := 5

  /** The shuffle is seeded from the names alone, so it is a function of them. */
  type Shuffler = seq<string> -> seq<string>

  ghost predicate Arranges(shuffle: Shuffler) {
    forall names: seq<string> :: Arrangement(shuffle(names))
  }

  // ---------- the dynamic map ----------

  /** Position of the last occurrence: a repeated name keeps its latest alias. */
  function LastIndex(names: seq<string>, n: string): (i: nat)
    requires n in names
    ensures i < |names| && names[i] == n
    ensures forall k :: i < k < |names| ==> names[k] != n
  {
    if names[|names| - 1] == n then |names| - 1 else LastIndex(names[..|names| - 1], n)
  }

  function DynamicMap(names: seq<string>, available: seq<string>): (m: map<string, string>)
    requires |available| == POOL_SIZE
    ensures m.Keys == set n | n in names
  {
    map n | n in names :: DynamicAlias(available, n, LastIndex(names, n))
  }

  function DynamicAliases(names: seq<string>, enabled: bool, available: seq<string>): Option<map<string, string>>
    requires |available| == POOL_SIZE
  {
    if enabled && |names| > DYNAMIC_THRESHOLD then Some(DynamicMap(names, available)) else None
  }

  method BuildDynamicToolMap(names: seq<string>, available: seq<string>) returns (mapping: Option<map<string, string>>)
    requires |available| == POOL_SIZE
    ensures mapping == DynamicAliases(names, true, available)
  {
    if |names| <= DYNAMIC_THRESHOLD {
      return None;
    }
    var m: map<string, string> := map[];
    for i := 0 to |names|
      invariant m == DynamicMap(names[..i], available)
    {
      var prefix := available[i % |available|];
      var headLen := if |names[i]| < 3 then |names[i]| else 3;
      m := m[names[i] := prefix + names[i][..headLen] + TwoDigits(i)];
      DynamicMapExtend(names, available, i);
    }
    assert names[..|names|] == names;
    return Some(m);
  }

  lemma DynamicMapExtend(names: seq<string>, available: seq<string>, i: nat)
    requires |available| == POOL_SIZE && i < |names|
    ensures DynamicMap(names[..i + 1], available)
         == DynamicMap(names[..i], available)[names[i] := DynamicAlias(available, names[i], i)]
  {
    var before, after := names[..i], names[..i + 1];
    assert after == before + [names[i]];
    forall n | n in after ensures LastIndex(after, n) == if n == names[i] then i else LastIndex(before, n) {
      assert after[..i] == before;
    }
  }

  // ---------- the rename map ----------

  /** The alias considered for a name: the dynamic one first, then the static one. */
  function SanitizeToolName(name: string, dynamic: Option<map<string, string>>): string {
    if dynamic.Some? && name in dynamic.value then dynamic.value[name] else StaticAlias(name)
  }

  /** Six names or more get dynamic aliases where those are enabled, the others static ones. */
  lemma AliasOf(names: seq<string>, n: string, enabled: bool, available: seq<string>)
    requires |available| == 24 && n in names
    ensures SanitizeToolName(n, DynamicAliases(names, enabled, available))
      == if enabled && |names| >= 6 then DynamicAlias(available, n, LastIndex(names, n)) else StaticAlias(n)
  {
  }

  /** Under any shuffle of the pool, a name is sent refused only if it was refused
      already and its alias is declared. */
  lemma SentRefused(names: seq<string>, n: string, enabled: bool, available: seq<string>)
    requires Shuffled(available) && n in names
    ensures var dynamic := DynamicAliases(names, enabled, available);
      var m := ForwardMap(names, dynamic);
      Refused(if n in m then m[n] else n) <==> Refused(n) && SanitizeToolName(n, dynamic) in names
  {
    hide POOL, Refused, StaticAlias, DynamicAlias;
    AliasOf(names, n, enabled, available);
    NoAliasRefused(n);
    NoDynamicAliasRefused(available, n, LastIndex(names, n));
  }

  /** A name is renamed when its alias is new and nobody declares that alias. */
  function ForwardMap(names: seq<string>, dynamic: Option<map<string, string>>): map<string, string> {
    map n | n in names && SanitizeToolName(n, dynamic) != n && SanitizeToolName(n, dynamic) !in names
      :: SanitizeToolName(n, dynamic)
  }

  /** Alias to real name; among names sharing an alias the last declared one wins. */
  function ReverseMap(names: seq<string>, forward: map<string, string>): map<string, string> {
    if names == [] then map[]
    else
      var init, last := names[..|names| - 1], names[|names| - 1];
      var m := ReverseMap(init, forward);
      if last in forward then m[forward[last] := last] else m
  }

  /** An alias stands for the last declared name it was given to. */
  lemma {:induction false} ReverseTakesLast(names: seq<string>, forward: map<string, string>, k: nat)
    requires k < |names| && names[k] in forward
    requires forall j :: k < j < |names| && names[j] in forward ==> forward[names[j]] != forward[names[k]]
    ensures forward[names[k]] in ReverseMap(names, forward) && ReverseMap(names, forward)[forward[names[k]]] == names[k]
  {
    if k < |names| - 1 {
      ReverseTakesLast(names[..|names| - 1], forward, k);
    }
  }

  ghost predicate Injective(m: map<string, string>) {
    forall a, b :: a in m && b in m && m[a] == m[b] ==> a == b
  }

  /** `r` undoes `m`, and nothing else. */
  ghost predicate InverseOf(r: map<string, string>, m: map<string, string>) {
    && r.Keys == m.Values
    && forall a :: a in r ==> r[a] in m && m[r[a]] == a
  }

  ghost predicate LongestFirst(pairs: seq<(string, string)>) {
    forall i, j :: 0 <= i < j < |pairs| ==> |pairs[i].0| >= |pairs[j].0|
  }

  ghost predicate KeysDistinct(pairs: seq<(string, string)>) {
    forall j, k :: 0 <= j < k < |pairs| ==> pairs[j].0 != pairs[k].0
  }

  /** The pairs are the entries of `m`, each once, in some order. */
  ghost predicate Lists(pairs: seq<(string, string)>, m: map<string, string>) {
    && (forall k :: 0 <= k < |pairs| ==> pairs[k].0 in m && m[pairs[k].0] == pairs[k].1)
    && KeysDistinct(pairs)
    && (forall a :: a in m ==> (a, m[a]) in pairs)
  }

  /** What the builder may return: nil when nothing is renamed, otherwise the map
      with its reversal in any order the map range and the sort allow. */
  ghost predicate IsRewriteOf(rw: Option<Rewrite>, names: seq<string>, dynamic: Option<map<string, string>>) {
    var forward := ForwardMap(names, dynamic);
    if forward == map[] then rw.None?
    else
      && rw.Some? && rw.value.forward == forward
      && LongestFirst(rw.value.reverseOrdered)
      && Lists(rw.value.reverseOrdered, ReverseMap(names, forward))
  }

  ghost function Among(m: map<string, string>, names: seq<string>): map<string, string> {
    map n | n in m && n in names :: m[n]
  }

  lemma MapsExtend(names: seq<string>, forward: map<string, string>, i: nat)
    requires i < |names|
    ensures Among(forward, names[..i + 1])
         == if names[i] in forward then Among(forward, names[..i])[names[i] := forward[names[i]]] else Among(forward, names[..i])
    ensures ReverseMap(names[..i + 1], forward)
         == if names[i] in forward then ReverseMap(names[..i], forward)[forward[names[i]] := names[i]] else ReverseMap(names[..i], forward)
  {
    var before, after := names[..i], names[..i + 1];
    assert after == before + [names[i]];
    assert after[..i] == before;
  }

  /** The loop filling both maps, then the reversal sorted by length. */
  method BuildToolNameRewrite(names: seq<string>, dynamicAliases: bool, available: seq<string>) returns (rw: Option<Rewrite>)
    requires |available| == POOL_SIZE
    ensures IsRewriteOf(rw, names, DynamicAliases(names, dynamicAliases, available))
  {
    var dynamic: Option<map<string, string>> := None;
    if dynamicAliases {
      dynamic := BuildDynamicToolMap(names, available);
    }
    ghost var target := ForwardMap(names, dynamic);
    var forward: map<string, string>, reverse: map<string, string> := map[], map[];
    for i := 0 to |names|
      invariant forward == Among(target, names[..i])
      invariant reverse == ReverseMap(names[..i], target)
    {
      MapsExtend(names, target, i);
      var name := names[i];
      var fake := SanitizeToolName(name, dynamic);
      if fake == name {
        continue;
      }
      if fake in names {
        continue;
      }
      forward := forward[name := fake];
      reverse := reverse[fake := name];
    }
    assert names[..|names|] == names;
    assert forward == target;
    if |forward| == 0 {
      return None;
    }
    var pairs := OrderedReverse(reverse);
    return Some(Rewrite(forward, pairs));
  }

  /** Where a stable sort by descending alias length puts one more pair. */
  function InsertPosition(pairs: seq<(string, string)>, p: (string, string)): (k: nat)
    ensures k <= |pairs|
    ensures k > 0 ==> |pairs[k - 1].0| >= |p.0|
    ensures forall j :: k <= j < |pairs| ==> |pairs[j].0| < |p.0|
  {
    if pairs == [] || |pairs[|pairs| - 1].0| >= |p.0| then |pairs| else InsertPosition(pairs[..|pairs| - 1], p)
  }

  lemma InsertKeepsOrder(pairs: seq<(string, string)>, p: (string, string), k: nat, r: seq<(string, string)>)
    requires LongestFirst(pairs) && k == InsertPosition(pairs, p) && r == pairs[..k] + [p] + pairs[k..]
    ensures LongestFirst(r)
  {
  }

  lemma InsertKeepsKeys(pairs: seq<(string, string)>, p: (string, string), k: nat, r: seq<(string, string)>)
    requires KeysDistinct(pairs) && forall q :: q in pairs ==> q.0 != p.0
    requires k <= |pairs| && r == pairs[..k] + [p] + pairs[k..]
    ensures KeysDistinct(r)
    ensures forall q :: q in r <==> q in pairs || q == p
  {
  }

  /** Ranges over the map in any order and sorts by descending alias length. */
  method OrderedReverse(reverse: map<string, string>) returns (pairs: seq<(string, string)>)
    ensures LongestFirst(pairs) && Lists(pairs, reverse)
  {
    hide InsertPosition;
    pairs := [];
    assert LongestFirst(pairs) && KeysDistinct(pairs);
    hide LongestFirst, KeysDistinct;
    var todo := reverse.Keys;
    while todo != {}
      invariant todo <= reverse.Keys
      invariant LongestFirst(pairs)
      invariant KeysDistinct(pairs)
      invariant forall q :: q in pairs <==> q.0 in reverse.Keys - todo && reverse[q.0] == q.1
      decreases |todo|
    {
      var fake :| fake in todo;
      var p := (fake, reverse[fake]);
      var k := InsertPosition(pairs, p);
      var r := pairs[..k] + [p] + pairs[k..];
      InsertKeepsOrder(pairs, p, k, r);
      InsertKeepsKeys(pairs, p, k, r);
      pairs := r;
      todo := todo - {fake};
    }
    assert forall k :: 0 <= k < |pairs| ==> pairs[k] in pairs;
  }
}
