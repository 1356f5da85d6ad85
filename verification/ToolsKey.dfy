/** Correlation on translated routes: the map of a request is found again by the
    hash of its aliased tool names.  When does that name one map only? */
module ToolsKey {
  import opened Text
  import opened ToolNames
  import opened RewriteMap
  import opened RoundTrip
  import opened RequestBody

  // ---------- the key ----------

  type Hash = string -> string

  /** What is fed to the hash: every name, ended by a zero byte. */
  function Encode(names: seq<string>): string {
    if names == [] then "" else names[0] + "\0" + Encode(names[1..])
  }

  /** Names of the tools of a type that may be renamed, empty names included. */
  function KeyNames(tools: seq<Tool>): seq<string> {
    if tools == [] then []
    else (if ShouldMimic(tools[0].toolType) then [tools[0].name] else []) + KeyNames(tools[1..])
  }

  /** The list of names that is hashed. */
  function KeyList(body: Body): seq<string> {
    if body.tools.None? then [] else KeyNames(body.tools.value)
  }

  function KeyOfNames(names: seq<string>, hash: Hash): string {
    if names == [] then "" else "tools:" + hash(Encode(names))
  }

  lemma {:induction false} EncodeAppend(a: seq<string>, b: seq<string>)
    ensures Encode(a + b) == Encode(a) + Encode(b)
  {
    if a == [] {
      assert a + b == b;
    } else {
      assert (a + b)[1..] == a[1..] + b;
      EncodeAppend(a[1..], b);
      var x, y, z := a[0] + "\0", Encode(a[1..]), Encode(b);
      assert x + (y + z) == (x + y) + z;
    }
  }

  lemma {:induction false} KeyNamesAppend(a: seq<Tool>, b: seq<Tool>)
    ensures KeyNames(a + b) == KeyNames(a) + KeyNames(b)
  {
    if a == [] {
      assert a + b == b;
    } else {
      assert (a + b)[1..] == a[1..] + b && (a + b)[0] == a[0];
      KeyNamesAppend(a[1..], b);
      var first := if ShouldMimic(a[0].toolType) then [a[0].name] else [];
      ConcatThrice(first, KeyNames(a[1..]), KeyNames(b));
    }
  }

  lemma ConcatThrice(x: seq<string>, y: seq<string>, z: seq<string>)
    ensures x + (y + z) == (x + y) + z
  {
  }

  method TranslatedToolsKey(body: Body, hash: Hash) returns (key: string)
    ensures key == KeyOfNames(KeyList(body), hash)
  {
    if body.tools.None? {
      return "";
    }
    var tools := body.tools.value;
    var written, n := "", 0;
    for k := 0 to |tools|
      invariant written == Encode(KeyNames(tools[..k])) && n == |KeyNames(tools[..k])|
    {
      assert tools[..k + 1] == tools[..k] + [tools[k]];
      KeyNamesAppend(tools[..k], [tools[k]]);
      if ShouldMimic(tools[k].toolType) {
        EncodeAppend(KeyNames(tools[..k]), [tools[k].name]);
        OneName(tools[k]);
        written := written + tools[k].name;
        written := written + "\0";
        n := n + 1;
      } else {
        assert KeyNames([tools[k]]) == [];
        assert KeyNames(tools[..k]) + [] == KeyNames(tools[..k]);
      }
    }
    assert tools[..|tools|] == tools;
    if n == 0 {
      return "";
    }
    return "tools:" + hash(written);
  }

  lemma OneName(t: Tool)
    requires ShouldMimic(t.toolType)
    ensures KeyNames([t]) == [t.name] && Encode([t.name]) == t.name + "\0"
  {
  }

  ghost predicate NulFree(names: seq<string>) {
    forall k :: 0 <= k < |names| ==> '\0' !in names[k]
  }

  lemma EncodeHead(names: seq<string>, i: nat)
    requires names != [] && '\0' !in names[0] && i == |names[0]|
    ensures i < |Encode(names)| && Encode(names)[i] == '\0'
    ensures forall k :: 0 <= k < i ==> Encode(names)[k] != '\0'
    ensures Encode(names)[..i] == names[0] && Encode(names)[i + 1..] == Encode(names[1..])
  {
  }

  /** The zero bytes make the encoding unambiguous. */
  lemma {:induction false} EncodeInjective(a: seq<string>, b: seq<string>)
    requires NulFree(a) && NulFree(b) && Encode(a) == Encode(b)
    ensures a == b
  {
    if a == [] || b == [] {
    } else {
      EncodeHead(a, |a[0]|);
      EncodeHead(b, |b[0]|);
      assert |a[0]| == |b[0]|;
      assert a[0] == b[0];
      EncodeInjective(a[1..], b[1..]);
      assert a == [a[0]] + a[1..] && b == [b[0]] + b[1..];
    }
  }

  /** The hash tells the two lists apart if they are encoded differently. */
  ghost predicate NoCollision(a: seq<string>, b: seq<string>, hash: Hash) {
    hash(Encode(a)) == hash(Encode(b)) ==> Encode(a) == Encode(b)
  }

  /** Two bodies share a key exactly when their nameable tools are named alike, in
      order; nothing else in a body reaches the key. */
  lemma KeyIdentifiesNames(a: seq<string>, b: seq<string>, hash: Hash)
    requires NoCollision(a, b, hash) && NulFree(a) && NulFree(b)
    ensures KeyOfNames(a, hash) == KeyOfNames(b, hash) <==> a == b
  {
    if KeyOfNames(a, hash) == KeyOfNames(b, hash) && a != [] && b != [] {
      assert KeyOfNames(a, hash)[6..] == hash(Encode(a)) && KeyOfNames(b, hash)[6..] == hash(Encode(b));
      EncodeInjective(a, b);
    }
  }

  // ---------- the names the key is made of ----------

  /** The names as the upstream sees them. */
  function Aliased(names: seq<string>, m: map<string, string>): (r: seq<string>)
    ensures |r| == |names|
    ensures forall k :: 0 <= k < |names| ==> r[k] == if names[k] in m then m[names[k]] else names[k]
  {
    seq(|names|, k requires 0 <= k < |names| => if names[k] in m then m[names[k]] else names[k])
  }

  /** The key of the rewritten body is made of the aliased names; a nameable tool
      without a name has its place among them. */
  lemma {:induction false} KeyNamesOfRenamed(tools: seq<Tool>, m: map<string, string>)
    requires "" !in m
    ensures KeyNames(MapSeq(tools, t => RenamedTool(t, m))) == Aliased(KeyNames(tools), m)
  {
    hide Aliased, RenamedTool;
    if tools == [] {
      AliasedAppend([], [], m);
      assert Aliased([], m) == [];
    } else {
      var rest, f := tools[1..], t => RenamedTool(t, m);
      KeyNamesOfRenamed(rest, m);
      assert MapSeq(tools, f) == [f(tools[0])] + MapSeq(rest, f);
      KeyNamesAppend([f(tools[0])], MapSeq(rest, f));
      assert tools == [tools[0]] + rest;
      KeyNamesAppend([tools[0]], rest);
      KeyOfOneRenamed(tools[0], m);
      AliasedAppend(KeyNames([tools[0]]), KeyNames(rest), m);
    }
  }

  lemma KeyOfOneRenamed(t: Tool, m: map<string, string>)
    requires "" !in m
    ensures KeyNames([RenamedTool(t, m)]) == Aliased(KeyNames([t]), m)
  {
    var r := RenamedTool(t, m);
    assert KeyNames([t]) == if ShouldMimic(t.toolType) then [t.name] else [];
    assert KeyNames([r]) == if ShouldMimic(r.toolType) then [r.name] else [];
  }

  lemma AliasedAppend(a: seq<string>, b: seq<string>, m: map<string, string>)
    ensures Aliased(a + b, m) == Aliased(a, m) + Aliased(b, m)
  {
  }

  /** The names without the empty ones. */
  function Named(names: seq<string>): seq<string> {
    if names == [] then []
    else (if names[0] != "" then [names[0]] else []) + Named(names[1..])
  }

  lemma {:induction false} NamedAppend(a: seq<string>, b: seq<string>)
    ensures Named(a + b) == Named(a) + Named(b)
  {
    if a == [] {
      assert a + b == b;
    } else {
      assert (a + b)[1..] == a[1..] + b && (a + b)[0] == a[0];
      NamedAppend(a[1..], b);
      ConcatThrice(if a[0] != "" then [a[0]] else [], Named(a[1..]), Named(b));
    }
  }

  lemma {:induction false} NamedKeyNames(tools: seq<Tool>)
    ensures Named(KeyNames(tools)) == MimicableNames(tools)
  {
    if tools != [] {
      var init, last := tools[..|tools| - 1], tools[|tools| - 1];
      NamedKeyNames(init);
      KeyNamesAppend(init, [last]);
      NamedAppend(KeyNames(init), KeyNames([last]));
      OneKeyName(last);
      assert tools == init + [last];
    }
  }

  lemma OneKeyName(t: Tool)
    ensures Named(KeyNames([t])) == if Mimicable(t) then [t.name] else []
  {
    assert KeyNames([t]) == if ShouldMimic(t.toolType) then [t.name] else [];
  }

  lemma {:induction false} NamedAliased(names: seq<string>, m: map<string, string>)
    requires "" !in m && forall n :: n in m ==> m[n] != ""
    ensures Named(Aliased(names, m)) == Aliased(Named(names), m)
  {
    if names != [] {
      var first, rest := [names[0]], names[1..];
      assert names == first + rest;
      NamedAliased(rest, m);
      OneNamedAliased(names[0], m);
      hide Named, Aliased;
      AliasedAppend(first, rest, m);
      NamedAppend(Aliased(first, m), Aliased(rest, m));
      NamedAppend(first, rest);
      AliasedAppend(Named(first), Named(rest), m);
    }
  }

  lemma OneNamedAliased(n: string, m: map<string, string>)
    requires "" !in m && (n in m ==> m[n] != "")
    ensures Named(Aliased([n], m)) == Aliased(Named([n]), m)
  {
    assert Aliased([n], m) == [if n in m then m[n] else n];
    assert Named([n]) == if n != "" then [n] else [];
  }

  // ---------- static renames: which maps share a key ----------

  /** The renames of a list of at most five names. */
  function StaticRenames(names: seq<string>): map<string, string> {
    ForwardMap(names, None)
  }

  /** `a` reads as an alias, and its name is not there as itself. */
  ghost predicate Free(a: string, seen: seq<string>) {
    a in seen && AliasShaped(a) && UnaliasToolName(a) !in seen
  }

  /** At least two names are free. */
  ghost predicate TwoFree(seen: seq<string>) {
    exists a, b :: a != b && Free(a, seen) && Free(b, seen)
  }

  /** A rename leaves a free alias behind, from which it can be read back. */
  lemma RenameIsFree(names: seq<string>, n: string)
    requires n in StaticRenames(names)
    ensures var seen := Aliased(names, StaticRenames(names));
      Free(StaticRenames(names)[n], seen) && UnaliasToolName(StaticRenames(names)[n]) == n
  {
    var m := StaticRenames(names);
    var seen := Aliased(names, m);
    UnaliasInverse(n);
    var k :| 0 <= k < |names| && names[k] == n;
    assert seen[k] == m[n];
    forall j | 0 <= j < |seen| ensures seen[j] != n {
      assert names[j] in names;
    }
  }

  /** A name that looks renamable stays only because its alias is there too. */
  lemma UnrenamedIsTaken(names: seq<string>, n: string)
    requires var seen := Aliased(names, StaticRenames(names)); n in seen && StaticAlias(n) != n
    ensures StaticAlias(n) in Aliased(names, StaticRenames(names))
  {
    var m := StaticRenames(names);
    var seen := Aliased(names, m);
    var k :| 0 <= k < |seen| && seen[k] == n;
    if names[k] in m {
      UnaliasInverse(names[k]);
      AliasShapedInverse(n);
    } else {
      assert names[k] == n;
      UnaliasInverse(n);
      AliasShapedInverse(StaticAlias(n));
      var j :| 0 <= j < |names| && names[j] == StaticAlias(n);
      assert seen[j] == StaticAlias(n);
    }
  }

  /** The client list that would have led to `seen` by renaming exactly `chosen`. */
  function Reverted(seen: seq<string>, chosen: set<string>): (r: seq<string>)
    ensures |r| == |seen|
    ensures forall k :: 0 <= k < |seen| ==> r[k] == if seen[k] in chosen then UnaliasToolName(seen[k]) else seen[k]
  {
    seq(|seen|, k requires 0 <= k < |seen| => if seen[k] in chosen then UnaliasToolName(seen[k]) else seen[k])
  }

  ghost predicate RenamesExactly(m: map<string, string>, chosen: set<string>) {
    && (forall n :: n in m ==> m[n] in chosen && n == UnaliasToolName(m[n]))
    && (forall a :: a in chosen ==> UnaliasToolName(a) in m && m[UnaliasToolName(a)] == a)
  }

  lemma RevertedNames(seen: seq<string>, chosen: set<string>, k: nat)
    requires k < |seen| && forall a :: a in chosen ==> Free(a, seen)
    ensures seen[k] in chosen ==> seen[k] !in Reverted(seen, chosen)
    ensures seen[k] !in chosen ==> seen[k] in Reverted(seen, chosen)
  {
  }

  /** Any choice of free aliases is the image of a client list renaming just those. */
  lemma RevertedLeadsThere(seen: seq<string>, chosen: set<string>)
    requires forall a :: a in chosen ==> Free(a, seen)
    requires forall n :: n in seen && StaticAlias(n) != n ==> StaticAlias(n) in seen
    ensures RenamesExactly(StaticRenames(Reverted(seen, chosen)), chosen)
    ensures Aliased(Reverted(seen, chosen), StaticRenames(Reverted(seen, chosen))) == seen
  {
    var names := Reverted(seen, chosen);
    var m := StaticRenames(names);
    forall k | 0 <= k < |seen|
      ensures seen[k] in chosen ==> names[k] in m && m[names[k]] == seen[k]
      ensures seen[k] !in chosen ==> names[k] !in m
    {
      RevertedEntry(seen, chosen, k);
    }
    forall n | n in m ensures m[n] in chosen && n == UnaliasToolName(m[n]) {
      var k :| 0 <= k < |names| && names[k] == n;
      assert seen[k] in chosen;
    }
    forall a | a in chosen ensures UnaliasToolName(a) in m && m[UnaliasToolName(a)] == a {
      assert Free(a, seen);
      var k :| 0 <= k < |seen| && seen[k] == a;
    }
  }

  lemma RevertedEntry(seen: seq<string>, chosen: set<string>, k: nat)
    requires k < |seen| && forall a :: a in chosen ==> Free(a, seen)
    requires forall n :: n in seen && StaticAlias(n) != n ==> StaticAlias(n) in seen
    ensures var names, m := Reverted(seen, chosen), StaticRenames(Reverted(seen, chosen));
      && (seen[k] in chosen ==> names[k] in m && m[names[k]] == seen[k])
      && (seen[k] !in chosen ==> names[k] !in m)
  {
    var names := Reverted(seen, chosen);
    assert names[k] in names && seen[k] in seen;
    RevertedNames(seen, chosen, k);
    if seen[k] in chosen {
      assert Free(seen[k], seen);
      AliasShapedInverse(seen[k]);
    } else if StaticAlias(seen[k]) != seen[k] {
      var a := StaticAlias(seen[k]);
      UnaliasInverse(seen[k]);
      assert !Free(a, seen);
      var j :| 0 <= j < |seen| && seen[j] == a;
      RevertedNames(seen, chosen, j);
    }
  }

  /** Some other list with renames of its own has the same key and another map. */
  ghost predicate Ambiguous(names: seq<string>) {
    exists other :: SharesKey(names, other) && StaticRenames(other) != StaticRenames(names)
  }

  ghost predicate SharesKey(names: seq<string>, other: seq<string>) {
    && StaticRenames(other) != map[]
    && Aliased(other, StaticRenames(other)) == Aliased(names, StaticRenames(names))
  }

  lemma AmbiguousByFree(names: seq<string>)
    requires StaticRenames(names) != map[]
    ensures Ambiguous(names)
      <==> TwoFree(Aliased(names, StaticRenames(names)))
  {
    var m := StaticRenames(names);
    var seen := Aliased(names, m);
    if other :| SharesKey(names, other) && StaticRenames(other) != m {
      TwoFreeAliases(names, other);
    }
    if a, b :| a != b && Free(a, seen) && Free(b, seen) {
      OtherMap(names, a, b);
    }
  }

  /** A declared name that reads as the alias of a name nobody declares. */
  ghost predicate Orphan(b: string, names: seq<string>) {
    b in names && AliasShaped(b) && UnaliasToolName(b) !in names
  }

  /** The free aliases are the aliases in use and the orphans. */
  lemma FreeExactly(names: seq<string>, a: string)
    ensures var m := StaticRenames(names);
      Free(a, Aliased(names, m)) <==> a in m.Values || Orphan(a, names)
  {
    var m := StaticRenames(names);
    var seen := Aliased(names, m);
    if n :| n in m && m[n] == a {
      RenameIsFree(names, n);
    } else {
      assert a in seen ==> a in names by {
        InSeen(names, a);
      }
      if AliasShaped(a) && a in names {
        AliasShapedInverse(a);
        assert a !in m;
        InSeen(names, a);
        InSeen(names, UnaliasToolName(a));
        AliasesInUse(names, UnaliasToolName(a));
      }
    }
  }

  lemma InSeen(names: seq<string>, w: string)
    ensures var m := StaticRenames(names);
      w in Aliased(names, m) <==> (w in names && w !in m) || w in m.Values
  {
    var m := StaticRenames(names);
    var seen := Aliased(names, m);
    if w in seen {
      var k :| 0 <= k < |seen| && seen[k] == w;
      assert names[k] in names;
    }
    if w in names && w !in m {
      var k :| 0 <= k < |names| && names[k] == w;
      assert seen[k] == w;
    }
    if n :| n in m && m[n] == w {
      var k :| 0 <= k < |names| && names[k] == n;
      assert seen[k] == w;
    }
  }

  lemma AliasesInUse(names: seq<string>, w: string)
    ensures w in StaticRenames(names).Values ==> StaticAlias(w) == w
  {
    var m := StaticRenames(names);
    if n :| n in m && m[n] == w {
      UnaliasInverse(n);
      AliasShapedInverse(w);
    }
  }

  /** "Requests that share a key share the map" fails for a request of at most five
      names, one of them renamed, exactly when it renames a second one or declares a
      name that reads as the alias of a name it does not declare. */
  lemma AmbiguousExactly(names: seq<string>)
    requires StaticRenames(names) != map[]
    ensures Ambiguous(names)
      <==> (exists n1, n2 :: n1 != n2 && n1 in StaticRenames(names) && n2 in StaticRenames(names))
           || exists b :: Orphan(b, names)
  {
    hide Ambiguous, AliasShaped, Aliased, StaticAlias, UnaliasToolName;
    var m := StaticRenames(names);
    var seen := Aliased(names, m);
    AmbiguousByFree(names);
    forall a ensures Free(a, seen) <==> a in m.Values || Orphan(a, names) {
      FreeExactly(names, a);
    }
    forall n1, n2 | n1 in m && n2 in m && m[n1] == m[n2] ensures n1 == n2 {
      StaticAliasInjective(n1, n2);
    }
    var n :| n in m;
    assert Free(m[n], seen);
    if b :| Orphan(b, names) {
      assert b != m[n];
      assert Free(b, seen);
    }
    if n1, n2 :| n1 != n2 && n1 in m && n2 in m {
      assert Free(m[n1], seen) && Free(m[n2], seen);
    }
    if TwoFree(seen) {
      var a, b :| a != b && Free(a, seen) && Free(b, seen);
      if a in m.Values && b in m.Values {
        var n1 :| n1 in m && m[n1] == a;
        var n2 :| n2 in m && m[n2] == b;
      }
    }
  }

  lemma TwoFreeAliases(names: seq<string>, other: seq<string>)
    requires StaticRenames(names) != map[]
    ensures SharesKey(names, other) && StaticRenames(other) != StaticRenames(names)
            ==> TwoFree(Aliased(names, StaticRenames(names)))
  {
    var m1, m2 := StaticRenames(names), StaticRenames(other);
    if !SharesKey(names, other) || m1 == m2 {
      return;
    }
    var n1 :| n1 in m1;
    var n2 :| n2 in m2;
    RenameIsFree(names, n1);
    RenameIsFree(other, n2);
    if m1[n1] == m2[n2] {
      SameRenames(names, other);
      if n :| n in m1.Keys && n !in m2.Keys {
        RenameIsFree(names, n);
        assert m1[n] != m2[n2];
      } else {
        var n :| n in m2.Keys && n !in m1.Keys;
        RenameIsFree(other, n);
        assert m2[n] != m1[n1];
      }
    }
  }

  lemma SameRenames(x: seq<string>, y: seq<string>)
    ensures StaticRenames(x).Keys == StaticRenames(y).Keys ==> StaticRenames(x) == StaticRenames(y)
  {
  }

  lemma OtherMap(names: seq<string>, a: string, b: string)
    requires StaticRenames(names) != map[] && a != b
    requires var seen := Aliased(names, StaticRenames(names)); Free(a, seen) && Free(b, seen)
    ensures Ambiguous(names)
  {
    hide UnaliasToolName, StaticAlias, RenamesExactly;
    var m := StaticRenames(names);
    var seen := Aliased(names, m);
    forall n | n in seen && StaticAlias(n) != n ensures StaticAlias(n) in seen {
      UnrenamedIsTaken(names, n);
    }
    // rename both if the request does not already, else just one
    var chosen := if UnaliasToolName(a) in m && UnaliasToolName(b) in m then {a} else {a, b};
    RevertedLeadsThere(seen, chosen);
    UnaliasApart(a, b);
    RenamesDiffer(m, StaticRenames(Reverted(seen, chosen)), a, b, chosen);
    assert SharesKey(names, Reverted(seen, chosen));
  }

  lemma UnaliasApart(a: string, b: string)
    requires AliasShaped(a) && AliasShaped(b) && a != b
    ensures UnaliasToolName(a) != UnaliasToolName(b)
  {
    AliasShapedInverse(a);
    AliasShapedInverse(b);
  }

  lemma RenamesDiffer(m: map<string, string>, m2: map<string, string>, a: string, b: string, chosen: set<string>)
    requires UnaliasToolName(a) != UnaliasToolName(b) && RenamesExactly(m2, chosen)
    requires chosen == if UnaliasToolName(a) in m && UnaliasToolName(b) in m then {a} else {a, b}
    ensures m2 != m && m2 != map[]
  {
  }

  lemma ExampleAliases()
    ensures StaticAlias("mcp_x") == "cc_mcp_x" && StaticAlias("mcp_y") == "cc_mcp_y" && StaticAlias("cc_mcp_x") == "cc_mcp_x"
    ensures "mcp_x" != "mcp_y" && "mcp_x" != "cc_mcp_x" && "mcp_x" != "cc_mcp_y" && "mcp_y" != "cc_mcp_x" && "mcp_y" != "cc_mcp_y"
    ensures "cc_mcp_x" != "cc_mcp_y"
  {
    StaticAliasCases("mcp_x");
    StaticAliasCases("mcp_y");
    assert Mcp.Applies("mcp_x") && Mcp.Rename("mcp_x") == "cc_mcp_x";
    assert Mcp.Applies("mcp_y") && Mcp.Rename("mcp_y") == "cc_mcp_y";
    AliasNotRenamed(Mcp, "cc_mcp_x");
    assert "mcp_x"[4] == 'x' && "mcp_y"[4] == 'y' && "cc_mcp_x"[7] == 'x' && "cc_mcp_y"[7] == 'y';
    assert |"mcp_x"| == 5 && |"mcp_y"| == 5 && |"cc_mcp_x"| == 8 && |"cc_mcp_y"| == 8;
  }

  lemma RenamesOfPair(x: string, y: string, ax: string, ay: string)
    requires StaticAlias(x) == ax && StaticAlias(y) == ay && StaticAlias(ax) == ax
    requires x != y && x != ax && x != ay && y != ax && y != ay && ax != ay
    ensures StaticRenames([x, y]) == map[x := ax, y := ay] && StaticRenames([ax, y]) == map[y := ay]
  {
  }

  lemma ClashingPair(x: string, y: string, ax: string, ay: string)
    requires StaticAlias(x) == ax && StaticAlias(y) == ay && StaticAlias(ax) == ax
    requires x != y && x != ax && x != ay && y != ax && y != ay && ax != ay
    ensures SharesKey([x, y], [ax, y]) && StaticRenames([x, y]) != StaticRenames([ax, y])
  {
    RenamesOfPair(x, y, ax, ay);
    assert Aliased([x, y], StaticRenames([x, y])) == [ax, ay];
    assert Aliased([ax, y], StaticRenames([ax, y])) == [ax, ay];
    assert x in StaticRenames([x, y]) && x !in StaticRenames([ax, y]) && y in StaticRenames([ax, y]);
  }

  /** The two lists of the shortest such clash. */
  lemma SharedKeyExample()
    ensures SharesKey(["mcp_x", "mcp_y"], ["cc_mcp_x", "mcp_y"])
    ensures StaticRenames(["mcp_x", "mcp_y"]) != StaticRenames(["cc_mcp_x", "mcp_y"])
  {
    ExampleAliases();
    ClashingPair("mcp_x", "mcp_y", "cc_mcp_x", "cc_mcp_y");
  }

  /** With no declared name that starts like a static alias, the aliased list gives
      away both the client's list and its map. */
  lemma PlainNamesDecodable(x: seq<string>, y: seq<string>)
    requires forall n, r: StaticRule :: n in x || n in y ==> !(r.Replacement() <= n)
    requires Aliased(x, StaticRenames(x)) == Aliased(y, StaticRenames(y))
    ensures x == y && StaticRenames(x) == StaticRenames(y)
  {
    hide StaticRenames, UnaliasToolName, Aliased;
    assert |Aliased(x, StaticRenames(x))| == |x| && |Aliased(y, StaticRenames(y))| == |y|;
    forall k | 0 <= k < |x| ensures x[k] == y[k] {
      PlainEntry(x, k);
      PlainEntry(y, k);
    }
  }

  lemma PlainEntry(x: seq<string>, k: nat)
    requires k < |x| && forall n, r: StaticRule :: n in x ==> !(r.Replacement() <= n)
    ensures UnaliasToolName(Aliased(x, StaticRenames(x))[k]) == x[k]
  {
    assert x[k] in x;
    if x[k] in StaticRenames(x) {
      UnaliasInverse(x[k]);
    } else {
      UnaliasNone([Sessions, Session, Mcp], x[k]);
    }
  }

  // ---------- all lists: which share a key, and when their maps differ ----------

  /** Entry `k` of two lists of one length is sent under the same name: renamed in
      both, to the same prefix and the same head and number (or, up to five names,
      from the same name); renamed in one, to the name the other one has; or in none. */
  ghost predicate EntryAgrees(x: seq<string>, ax: seq<string>, y: seq<string>, ay: seq<string>, k: nat)
    requires |ax| == POOL_SIZE && |ay| == POOL_SIZE && k < |x| == |y|
  {
    var mx, my := ForwardOf(x, true, ax), ForwardOf(y, true, ay);
    if x[k] in mx && y[k] in my then
      if |x| <= DYNAMIC_THRESHOLD then x[k] == y[k]
      else
        var i, j := LastIndex(x, x[k]), LastIndex(y, y[k]);
        ax[i % 24] == ay[j % 24] && Head(x[k]) + TwoDigits(i) == Head(y[k]) + TwoDigits(j)
    else if x[k] in mx then mx[x[k]] == y[k]
    else if y[k] in my then x[k] == my[y[k]]
    else x[k] == y[k]
  }

  lemma EntryAgreesExactly(x: seq<string>, ax: seq<string>, y: seq<string>, ay: seq<string>, k: nat)
    requires Arrangement(ax) && Arrangement(ay) && k < |x| == |y|
    ensures Aliased(x, ForwardOf(x, true, ax))[k] == Aliased(y, ForwardOf(y, true, ay))[k] <==> EntryAgrees(x, ax, y, ay, k)
  {
    hide StaticAlias, Head, TwoDigits, PoolShaped;
    var mx, my := ForwardOf(x, true, ax), ForwardOf(y, true, ay);
    if x[k] in mx && y[k] in my {
      if |x| <= DYNAMIC_THRESHOLD {
        if mx[x[k]] == my[y[k]] {
          StaticAliasInjective(x[k], y[k]);
        }
      } else {
        SameDynamicAlias(ax, x[k], LastIndex(x, x[k]), ay, y[k], LastIndex(y, y[k]));
      }
    }
  }

  lemma SameDynamicAlias(ax: seq<string>, m: string, i: nat, ay: seq<string>, n: string, j: nat)
    requires Arrangement(ax) && Arrangement(ay)
    ensures DynamicAlias(ax, m, i) == DynamicAlias(ay, n, j)
      <==> ax[i % 24] == ay[j % 24] && Head(m) + TwoDigits(i) == Head(n) + TwoDigits(j)
  {
    AliasParts(ax, m, i);
    AliasParts(ay, n, j);
    if DynamicAlias(ax, m, i) == DynamicAlias(ay, n, j) {
      PrefixCode(ax[i % 24], Head(m) + TwoDigits(i), ay[j % 24], Head(n) + TwoDigits(j));
    }
  }

  /** Two lists of any length, under any shuffles, share a key exactly when they have
      one length and agree at every entry. */
  lemma KeysSharedExactly(x: seq<string>, ax: seq<string>, y: seq<string>, ay: seq<string>)
    requires Arrangement(ax) && Arrangement(ay)
    ensures Aliased(x, ForwardOf(x, true, ax)) == Aliased(y, ForwardOf(y, true, ay))
      <==> |x| == |y| && forall k :: 0 <= k < |x| ==> EntryAgrees(x, ax, y, ay, k)
  {
    hide EntryAgrees, ForwardOf, PoolShaped, Distinct;
    var sx, sy := Aliased(x, ForwardOf(x, true, ax)), Aliased(y, ForwardOf(y, true, ay));
    if |x| == |y| {
      forall k | 0 <= k < |x| ensures sx[k] == sy[k] <==> EntryAgrees(x, ax, y, ay, k) {
        EntryAgreesExactly(x, ax, y, ay, k);
      }
    }
  }

  /** The renames are of listed names, to names not listed. */
  ghost predicate RenamesListed(m: map<string, string>, names: seq<string>) {
    forall n :: n in m ==> n in names && m[n] != n && m[n] !in names
  }

  /** Lists that share a key have the same map when they are the same list, and, if
      aliases are distinct, only then. */
  lemma SharedKeyMaps(x: seq<string>, mx: map<string, string>, y: seq<string>, my: map<string, string>)
    requires RenamesListed(mx, x) && RenamesListed(my, y)
    requires Aliased(x, mx) == Aliased(y, my)
    ensures x == y ==> mx == my
    ensures Injective(mx) && mx == my ==> x == y
  {
    var seen := Aliased(x, mx);
    if x == y {
      forall n | n in x ensures n in mx <==> n in my {
        var k :| 0 <= k < |x| && x[k] == n;
        assert seen[k] == Aliased(y, my)[k];
      }
      forall n | n in mx ensures n in my && mx[n] == my[n] {
        var k :| 0 <= k < |x| && x[k] == n;
        assert seen[k] == Aliased(y, my)[k];
      }
      assert mx.Keys == my.Keys;
    }
    if Injective(mx) && mx == my {
      forall k | 0 <= k < |x| ensures x[k] == y[k] {
        assert x[k] in x && y[k] in y;
        assert seen[k] == Aliased(y, my)[k];
      }
    }
  }
}
