/** What the rename map guarantees: distinct aliases, and a reversal over raw bytes
    that undoes exactly the renames of the request. */
module RoundTrip {
  import opened Text
  import opened Identifiers
  import opened ToolNames
  import opened RewriteMap

  // ---------- aliases are distinct up to 600 names ----------

  function ForwardOf(names: seq<string>, enabled: bool, available: seq<string>): map<string, string>
    requires |available| == POOL_SIZE
  {
    ForwardMap(names, DynamicAliases(names, enabled, available))
  }

  /** Up to 600 positions, the dynamic alias gives its name away. */
  lemma DynamicMapInjective(names: seq<string>, available: seq<string>)
    requires Arrangement(available) && |names| <= 600
    ensures Injective(DynamicMap(names, available))
  {
    var m := DynamicMap(names, available);
    forall a, b | a in m && b in m && m[a] == m[b] ensures a == b {
      var i, j := LastIndex(names, a), LastIndex(names, b);
      CollisionDistance(available, a, i, b, j);
      SmallCongruence(i, j);
    }
  }

  lemma SmallCongruence(i: nat, j: nat)
    requires i < 600 && j < 600 && i % 600 == j % 600
    ensures i == j
  {
  }

  lemma AliasesDistinct(names: seq<string>, enabled: bool, available: seq<string>)
    requires Arrangement(available) && (enabled ==> |names| <= 600)
    ensures Injective(ForwardOf(names, enabled, available))
  {
    var dynamic := DynamicAliases(names, enabled, available);
    var forward := ForwardMap(names, dynamic);
    if dynamic.Some? {
      DynamicMapInjective(names, available);
    } else {
      forall a, b | a in forward && b in forward && forward[a] == forward[b] ensures a == b {
        StaticAliasInjective(a, b);
      }
    }
  }

  /** The last positions of two names call for the same prefix and the same text
      after it. */
  predicate SamePlace(names: seq<string>, a: string, b: string)
    requires a in names && b in names
  {
    var i, j := LastIndex(names, a), LastIndex(names, b);
    i % 24 == j % 24 && Head(a) + TwoDigits(i) == Head(b) + TwoDigits(j)
  }

  lemma AliasesMeet(names: seq<string>, available: seq<string>, a: string, b: string)
    requires Arrangement(available) && |names| > DYNAMIC_THRESHOLD
    requires a in ForwardOf(names, true, available) && b in ForwardOf(names, true, available)
    ensures ForwardOf(names, true, available)[a] == ForwardOf(names, true, available)[b] <==> SamePlace(names, a, b)
  {
    hide DynamicAlias, Head, TwoDigits, PoolShaped, Distinct, StaticAlias;
    DynamicAliasCollision(available, a, LastIndex(names, a), b, LastIndex(names, b));
  }

  /** Beyond 600 names, the exact condition: no two renamed names fall on the same
      prefix and the same head-and-number text. */
  lemma AliasesDistinctExactly(names: seq<string>, available: seq<string>)
    requires Arrangement(available) && |names| > DYNAMIC_THRESHOLD
    ensures var forward := ForwardOf(names, true, available);
      Injective(forward) <==> forall a, b :: a in forward && b in forward && a != b ==> !SamePlace(names, a, b)
  {
    hide SamePlace, PoolShaped, Distinct, DynamicAliases;
    var forward := ForwardOf(names, true, available);
    forall a, b | a in forward && b in forward ensures forward[a] == forward[b] <==> SamePlace(names, a, b) {
      AliasesMeet(names, available, a, b);
    }
  }

  /** 601 distinct names of which the first and the last get the same alias. */
  function TooManyNames(): (names: seq<string>)
    ensures |names| == 601
  {
    ["ab6"] + seq(599, k requires 0 <= k < 599 => "t" + Decimal(k)) + ["ab"]
  }

  lemma TooManyNamesDistinct()
    ensures Distinct(TooManyNames())
  {
    var names := TooManyNames();
    forall i, j | 0 <= i < j < |names| ensures names[i] != names[j] {
      if 0 < i && j < 600 {
        assert names[i] == "t" + Decimal(i - 1) && names[j] == "t" + Decimal(j - 1);
        assert names[i][1..] == Decimal(i - 1) && names[j][1..] == Decimal(j - 1);
        if names[i] == names[j] {
          DecimalInjective(i - 1, j - 1);
        }
      } else {
        assert names[0][0] == 'a' && names[600][0] == 'a';
        assert i > 0 ==> names[i][0] == 't';
        assert j < 600 ==> names[j][0] == 't';
      }
    }
  }

  lemma AliasOfLast(available: seq<string>)
    requires Arrangement(available)
    ensures DynamicAlias(available, "ab6", 0) == available[0] + "ab600" == DynamicAlias(available, "ab", 600)
  {
  }

  lemma TooManyNamesPlain(n: string)
    requires n in TooManyNames()
    ensures '_' !in n
  {
    var names := TooManyNames();
    var k :| 0 <= k < |names| && names[k] == n;
    if 0 < k < 600 {
      DecimalIsName(k - 1);
      assert names[k] == "t" + Decimal(k - 1);
    }
  }

  lemma CollidingAliasIsNew(available: seq<string>)
    requires Arrangement(available)
    ensures available[0] + "ab600" !in TooManyNames()
  {
    var alias := available[0] + "ab600";
    assert alias[|available[0]| - 1] == '_';
    if alias in TooManyNames() {
      TooManyNamesPlain(alias);
    }
  }

  /** The bound of 600 is tight, whatever the shuffle. */
  lemma BoundIsTight(available: seq<string>)
    requires Arrangement(available)
    ensures |TooManyNames()| == 601 && Distinct(TooManyNames())
    ensures !Injective(ForwardOf(TooManyNames(), true, available))
  {
    TooManyNamesDistinct();
    AliasOfLast(available);
    CollidingAliasIsNew(available);
    var names := TooManyNames();
    assert names[0] == "ab6" && names[600] == "ab";
    FirstAndLast(names, "ab6", "ab");
    RenamedTo(names, available, "ab6", available[0] + "ab600");
    RenamedTo(names, available, "ab", available[0] + "ab600");
    assert "ab6" != "ab";
  }

  lemma RenamedTo(names: seq<string>, available: seq<string>, n: string, alias: string)
    requires |available| == POOL_SIZE && |names| > DYNAMIC_THRESHOLD && n in names
    requires alias == DynamicAlias(available, n, LastIndex(names, n)) && alias !in names
    ensures n in ForwardOf(names, true, available) && ForwardOf(names, true, available)[n] == alias
  {
  }

  lemma FirstAndLast(names: seq<string>, a: string, b: string)
    requires |names| == 601 && Distinct(names) && names[0] == a && names[600] == b
    ensures a in names && b in names && LastIndex(names, a) == 0 && LastIndex(names, b) == 600
  {
  }

  // ---------- aliases are identifiers ----------

  lemma ConcatIsName(a: string, b: string)
    requires NameBytes(a) && NameBytes(b)
    ensures NameBytes(a + b)
  {
  }

  lemma DynamicAliasWellFormed(available: seq<string>, n: string, i: nat)
    requires Arrangement(available) && WellFormed(n)
    ensures WellFormed(DynamicAlias(available, n, i))
  {
    var p := available[i % POOL_SIZE];
    assert PoolShaped(p) && NameBytes(p) && p != "";
    assert NameBytes(TwoDigits(i)) by { DecimalIsName(i); }
    assert NameBytes(Head(n));
    hide PoolShaped, Distinct, NameBytes, TwoDigits, Head;
    ConcatIsName(Head(n), TwoDigits(i));
    ConcatIsName(p, Head(n) + TwoDigits(i));
    AliasParts(available, n, i);
  }

  lemma AliasWellFormed(names: seq<string>, enabled: bool, available: seq<string>, n: string)
    requires Arrangement(available) && n in names && WellFormed(n)
    ensures WellFormed(SanitizeToolName(n, DynamicAliases(names, enabled, available)))
  {
    hide DynamicAlias, StaticAlias, PoolShaped, Distinct, WellFormed;
    var dynamic := DynamicAliases(names, enabled, available);
    if dynamic.Some? {
      DynamicAliasWellFormed(available, n, LastIndex(names, n));
    } else {
      StaticAliasWellFormed(n);
    }
  }

  lemma StaticAliasWellFormed(n: string)
    requires WellFormed(n)
    ensures WellFormed(StaticAlias(n))
  {
    StaticAliasCases(n);
    hide StaticAlias;
    if r: StaticRule :| r.Applies(n) {
      ConcatIsName(r.Replacement(), n[|r.Prefix()|..]);
    }
  }

  lemma StaticAliasBringsNoOther(n: string, c: char)
    requires !IsNameByte(c) && c !in n
    ensures c !in StaticAlias(n)
  {
    StaticAliasCases(n);
    hide StaticAlias;
    if r: StaticRule :| r.Applies(n) {
      assert NameBytes(r.Replacement());
      assert c !in n[|r.Prefix()|..];
    }
  }

  lemma DynamicAliasBringsNoOther(available: seq<string>, n: string, i: nat, c: char)
    requires Arrangement(available) && !IsNameByte(c) && c !in n
    ensures c !in DynamicAlias(available, n, i)
  {
    var p := available[i % POOL_SIZE];
    assert PoolShaped(p) && NameBytes(p);
    DecimalIsName(i);
    assert NameBytes(TwoDigits(i)) && c !in Head(n);
  }

  /** An alias holds no byte outside identifiers that its name does not hold. */
  lemma AliasBringsNoOther(names: seq<string>, enabled: bool, available: seq<string>, n: string, c: char)
    requires Arrangement(available) && n in ForwardOf(names, enabled, available)
    requires !IsNameByte(c) && c !in n
    ensures c !in ForwardOf(names, enabled, available)[n]
  {
    hide DynamicAlias, StaticAlias, PoolShaped, Distinct;
    DynamicAliasBringsNoOther(available, n, LastIndex(names, n), c);
    StaticAliasBringsNoOther(n, c);
  }

  // ---------- the reverse map ----------

  lemma {:induction false} ReverseKeys(names: seq<string>, forward: map<string, string>)
    ensures forall a :: a in ReverseMap(names, forward) <==> exists n :: n in names && n in forward && forward[n] == a
    ensures forall a :: a in ReverseMap(names, forward) ==>
      ReverseMap(names, forward)[a] in forward && forward[ReverseMap(names, forward)[a]] == a
  {
    if names != [] {
      ReverseKeys(names[..|names| - 1], forward);
      assert names == names[..|names| - 1] + [names[|names| - 1]];
    }
  }

  lemma ReverseIsInverse(names: seq<string>, forward: map<string, string>)
    requires forall n :: n in forward ==> n in names
    ensures InverseOf(ReverseMap(names, forward), forward)
  {
    ReverseKeys(names, forward);
  }

  // ---------- reversing a response ----------

  /** One pair of the reversal, on any bytes. */
  function RestorePair(data: string, pair: (string, string)): string {
    if pair.0 == "" then data else ReplaceWhole(data, 0, pair.0, pair.1)
  }

  /** The pairs in turn, each over the result of the one before. */
  function RestoreInTurn(data: string, pairs: seq<(string, string)>): string
    decreases |pairs|
  {
    if pairs == [] then data else RestoreInTurn(RestorePair(data, pairs[0]), pairs[1..])
  }

  /** Names in and out are identifiers, and no name is also an alias. */
  ghost predicate Reversible(m: map<string, string>) {
    && (forall a :: a in m ==> WellFormed(a) && WellFormed(m[a]))
    && (forall a :: a in m ==> m[a] !in m)
  }

  /** Replacing pair by pair is one simultaneous substitution, in any order. */
  lemma {:induction false} RestoreIsSubst(data: string, pairs: seq<(string, string)>, m: map<string, string>)
    requires Lists(pairs, m) && Reversible(m)
    ensures RestoreInTurn(data, pairs) == Subst(data, m)
    decreases |pairs|
  {
    if pairs == [] {
      assert m == map[];
      SubstIdentity(data, m);
    } else {
      var first, rest := pairs[0], pairs[1..];
      var m1, m2 := map[first.0 := first.1], m - {first.0};
      forall a | a in m2 ensures (a, m2[a]) in rest {
        assert (a, m[a]) in pairs;
      }
      ReplaceWholeIsSubst(data, 0, first.0, first.1);
      assert data[0..] == data;
      RestoreIsSubst(RestorePair(data, first), rest, m2);
      SubstCompose(data, m1, m2, m);
    }
  }

  /** The order of the pairs, random map range and sort included, cannot be seen. */
  lemma RestoreAnyOrder(data: string, p: seq<(string, string)>, q: seq<(string, string)>, m: map<string, string>)
    requires Lists(p, m) && Lists(q, m) && Reversible(m)
    ensures RestoreInTurn(data, p) == RestoreInTurn(data, q)
  {
    RestoreIsSubst(data, p, m);
    RestoreIsSubst(data, q, m);
  }

  /** The map a request of well-formed names is reversed with. */
  lemma ReverseIsReversible(names: seq<string>, enabled: bool, available: seq<string>)
    requires Arrangement(available) && (forall n :: n in names ==> WellFormed(n))
    ensures var forward := ForwardOf(names, enabled, available);
      InverseOf(ReverseMap(names, forward), forward) && Reversible(ReverseMap(names, forward))
  {
    var forward := ForwardOf(names, enabled, available);
    ReverseIsInverse(names, forward);
    forall n | n in forward ensures WellFormed(forward[n]) {
      AliasWellFormed(names, enabled, available, n);
    }
  }

  /** Aliases substituted for declared names, then restored, give the text back. */
  lemma SubstUndone(text: string, forward: map<string, string>, reverse: map<string, string>)
    requires Injective(forward) && InverseOf(reverse, forward)
    requires forall n :: n in forward ==> WellFormed(forward[n])
    requires forall w :: w in Tokens(text) ==> w !in reverse
    ensures Subst(Subst(text, forward), reverse) == text
  {
    forall w | w in Tokens(text) ensures Lookup(reverse, Lookup(forward, w)) == w {
      if w in forward {
        assert forward[w] in reverse;
      }
    }
    SubstCompose(text, forward, reverse, map[]);
    SubstIdentity(text, map[]);
  }

  lemma RoundTrips(names: seq<string>, enabled: bool, available: seq<string>, rw: Rewrite, text: string)
    requires Arrangement(available) && ((enabled ==> |names| <= 600) || Injective(rw.forward))
    requires forall n :: n in names ==> WellFormed(n)
    requires IsRewriteOf(Some(rw), names, DynamicAliases(names, enabled, available))
    requires forall w :: w in Tokens(text) ==> w !in rw.forward.Values
    ensures RestoreInTurn(Subst(text, rw.forward), rw.reverseOrdered) == text
  {
    var reverse := ReverseMap(names, rw.forward);
    if enabled ==> |names| <= 600 {
      AliasesDistinct(names, enabled, available);
    }
    ReverseIsReversible(names, enabled, available);
    forall n | n in rw.forward ensures WellFormed(rw.forward[n]) {
      AliasWellFormed(names, enabled, available, n);
    }
    RestoreIsSubst(Subst(text, rw.forward), rw.reverseOrdered, reverse);
    SubstUndone(text, rw.forward, reverse);
  }

  /** Restoring twice is restoring once. */
  lemma RestoreIdempotent(pairs: seq<(string, string)>, m: map<string, string>, data: string)
    requires Lists(pairs, m) && Reversible(m)
    ensures RestoreInTurn(RestoreInTurn(data, pairs), pairs) == RestoreInTurn(data, pairs)
  {
    RestoreIsSubst(data, pairs, m);
    RestoreIsSubst(Subst(data, m), pairs, m);
    SubstCompose(data, m, m, m);
  }

  /** Text that mentions no alias of the request, declared names included, is kept. */
  lemma RestoreKeepsOtherText(names: seq<string>, enabled: bool, available: seq<string>, rw: Rewrite, text: string)
    requires Arrangement(available) && (forall n :: n in names ==> WellFormed(n))
    requires IsRewriteOf(Some(rw), names, DynamicAliases(names, enabled, available))
    requires forall w :: w in Tokens(text) ==> w in names || w !in rw.forward.Values
    ensures RestoreInTurn(text, rw.reverseOrdered) == text
  {
    ReverseIsReversible(names, enabled, available);
    RestoreIsSubst(text, rw.reverseOrdered, ReverseMap(names, rw.forward));
    SubstIdentity(text, ReverseMap(names, rw.forward));
  }

  /** Chunks cut between identifiers restore to the restored stream. */
  lemma RestoreChunks(pairs: seq<(string, string)>, m: map<string, string>, chunks: seq<string>)
    requires Lists(pairs, m) && Reversible(m) && CleanCuts(chunks)
    ensures RestoreInTurn(Concat(chunks), pairs)
         == Concat(seq(|chunks|, k requires 0 <= k < |chunks| => RestoreInTurn(chunks[k], pairs)))
  {
    RestoreIsSubst(Concat(chunks), pairs, m);
    SubstChunks(chunks, m);
    forall k | 0 <= k < |chunks| ensures RestoreInTurn(chunks[k], pairs) == Subst(chunks[k], m) {
      RestoreIsSubst(chunks[k], pairs, m);
    }
    assert seq(|chunks|, k requires 0 <= k < |chunks| => RestoreInTurn(chunks[k], pairs))
        == seq(|chunks|, k requires 0 <= k < |chunks| => Subst(chunks[k], m));
  }
}
