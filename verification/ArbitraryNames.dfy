/** The reversal for names of arbitrary bytes: which texts it leaves alone, and which
    aliases come back.  The maps are built without looking at the bytes of a name, so
    a name put back by one pair may spell the alias of a later one.

    No two pairs undo each other: a pair never lowers the number of bytes that are not
    name bytes, and where it keeps that number, the first identifier it touches gets
    a lower rank.  So a text in which an alias occurs never comes out as it went in. */
module ArbitraryNames {
  import opened Text
  import opened Identifiers
  import opened ToolNames
  import opened RewriteMap
  import opened RoundTrip

  // ---------- a measure that only moves one way ----------

  /** How many bytes of `s` are not name bytes. */
  function Others(s: string): nat {
    if s == "" then 0 else (if IsNameByte(s[0]) then 0 else 1) + Others(s[1..])
  }

  lemma {:induction false} OthersConcat(a: string, b: string)
    ensures Others(a + b) == Others(a) + Others(b)
  {
    if a == "" {
      assert a + b == b;
    } else {
      assert (a + b)[1..] == a[1..] + b;
      OthersConcat(a[1..], b);
    }
  }

  lemma {:induction false} OthersNone(s: string)
    ensures Others(s) == 0 <==> NameBytes(s)
  {
    if s != "" {
      OthersNone(s[1..]);
      assert forall k :: 0 < k < |s| ==> s[k] == s[1..][k - 1];
    }
  }

  /** The identifier `s` begins with, if any. */
  function First(s: string): string {
    s[..RunLength(s)]
  }

  type Rank = string -> nat

  /** The pair keeps the number of other bytes, or raises it; where it keeps it, the
      identifier at its place gets a lower rank. */
  ghost predicate Lowers(p: (string, string), rank: Rank) {
    && p.0 != "" && IsNameByte(p.0[0])
    && Others(p.0) <= Others(p.1)
    && (Others(p.0) == Others(p.1) ==> rank(First(p.1)) < rank(First(p.0)))
  }

  /** `t` is `s` up to an identifier border, where an identifier of lower rank follows. */
  ghost predicate SinksAt(s: string, t: string, q: nat, rank: Rank) {
    && q <= |s| && q <= |t| && s[..q] == t[..q]
    && (q == 0 || !IsNameByte(s[q - 1]))
    && rank(First(t[q..])) < rank(First(s[q..]))
  }

  ghost predicate Advances(s: string, t: string, rank: Rank) {
    Others(s) < Others(t) || (Others(s) == Others(t) && exists q: nat :: SinksAt(s, t, q, rank))
  }

  /** An identifier before a border does not depend on what follows the border. */
  lemma FirstBeforeBorder(s: string, t: string, q: nat, r: nat)
    requires q < r <= |s| && r <= |t| && s[..r] == t[..r] && !IsNameByte(s[r - 1])
    ensures First(s[q..]) == First(t[q..])
  {
    var n := RunLength(s[q..]);
    assert s[q..][r - 1 - q] == s[r - 1];
    assert n <= r - 1 - q;
    assert forall k :: 0 <= k < r - q ==> s[q..][k] == s[..r][q + k] == t[q..][k];
    RunLengthUnique(t[q..], n);
    assert s[q..][..n] == t[q..][..n];
  }

  lemma SinksTransitive(s: string, t: string, u: string, q: nat, r: nat, rank: Rank)
    requires SinksAt(s, t, q, rank) && SinksAt(t, u, r, rank)
    ensures exists k: nat :: SinksAt(s, u, k, rank)
  {
    hide RunLength, First;
    if q < r {
      assert t[..q] == t[..r][..q] == u[..q];
      assert t[r - 1] == u[..r][r - 1];
      FirstBeforeBorder(t, u, q, r);
      assert SinksAt(s, u, q, rank);
    } else {
      assert s[..r] == s[..q][..r] == t[..r];
      if r < q {
        FirstBeforeBorder(s, t, r, q);
      }
      assert r > 0 ==> s[r - 1] == s[..r][r - 1] == t[r - 1];
      assert SinksAt(s, u, r, rank);
    }
  }

  lemma AdvancesTransitive(s: string, t: string, u: string, rank: Rank)
    requires Advances(s, t, rank) && Advances(t, u, rank)
    ensures Advances(s, u, rank)
  {
    hide SinksAt;
    if Others(s) == Others(t) == Others(u) {
      var q: nat :| SinksAt(s, t, q, rank);
      var r: nat :| SinksAt(t, u, r, rank);
      SinksTransitive(s, t, u, q, r, rank);
    }
  }

  // ---------- one pair ----------

  lemma OthersCons(c: char, s: string)
    ensures Others([c] + s) == (if IsNameByte(c) then 0 else 1) + Others(s)
  {
    assert ([c] + s)[1..] == s;
  }

  /** Unfolding the scan: here it writes `to`, there it copies a byte. */
  lemma OthersStep(data: string, k: nat, from: string, to: string)
    requires k < |data| && from != ""
    ensures WholeAt(data, k, from) ==> (
      && k + |from| <= |data|
      && Others(data[k..]) == Others(from) + Others(data[k + |from|..])
      && Others(ReplaceWhole(data, k, from, to)) == Others(to) + Others(ReplaceWhole(data, k + |from|, from, to)))
    ensures var c := if IsNameByte(data[k]) then 0 else 1;
      && Others(data[k..]) == c + Others(data[k + 1..])
      && (!WholeAt(data, k, from) ==>
            Others(ReplaceWhole(data, k, from, to)) == c + Others(ReplaceWhole(data, k + 1, from, to)))
  {
    hide Others;
    OthersCons(data[k], data[k + 1..]);
    assert data[k..] == [data[k]] + data[k + 1..];
    if WholeAt(data, k, from) {
      OthersConcat(from, data[k + |from|..]);
      assert data[k..] == from + data[k + |from|..];
      OthersConcat(to, ReplaceWhole(data, k + |from|, from, to));
    } else {
      OthersCons(data[k], ReplaceWhole(data, k + 1, from, to));
    }
  }

  lemma {:induction false} OthersKept(data: string, k: nat, from: string, to: string)
    requires k <= |data| && from != "" && Others(from) <= Others(to)
    ensures Others(ReplaceWhole(data, k, from, to)) >= Others(data[k..])
    ensures Others(from) == Others(to) ==> Others(ReplaceWhole(data, k, from, to)) == Others(data[k..])
    decreases |data| - k
  {
    if k == |data| {
      assert ReplaceWhole(data, k, from, to) == "" == data[k..];
    } else {
      hide Others, WholeAt, ReplaceWhole;
      OthersStep(data, k, from, to);
      OthersKept(data, if WholeAt(data, k, from) then k + |from| else k + 1, from, to);
    }
  }

  lemma {:induction false} OthersRaised(data: string, k: nat, q: nat, from: string, to: string)
    requires k <= q < |data| && from != "" && Others(from) < Others(to) && WholeAt(data, q, from)
    ensures Others(ReplaceWhole(data, k, from, to)) > Others(data[k..])
    decreases |data| - k
  {
    hide Others, WholeAt, ReplaceWhole, OccursAt;
    OthersStep(data, k, from, to);
    if WholeAt(data, k, from) {
      OthersKept(data, k + |from|, from, to);
    } else {
      OthersRaised(data, k + 1, q, from, to);
    }
  }

  lemma {:induction false} LeastWhole(data: string, from: string, q: nat) returns (m: nat)
    requires WholeAt(data, q, from)
    ensures WholeAt(data, m, from) && forall k :: 0 <= k < m ==> !WholeAt(data, k, from)
  {
    m := q;
    if k: nat :| k < q && WholeAt(data, k, from) {
      m := LeastWhole(data, from, k);
    }
  }

  lemma FirstOf(x: string, v: string)
    requires v == "" || !IsNameByte(v[0])
    ensures First(x + v) == First(x)
  {
    RunLengthUnique(x + v, RunLength(x));
  }

  lemma ReplaceKeepsBorder(data: string, k: nat, from: string, to: string)
    requires k <= |data| && from != "" && IsNameByte(from[0])
    requires k == |data| || !IsNameByte(data[k])
    ensures var r := ReplaceWhole(data, k, from, to); r == "" || !IsNameByte(r[0])
  {
    WholeBegins(data, k, from);
  }

  lemma WholeBegins(data: string, k: nat, from: string)
    requires from != ""
    ensures WholeAt(data, k, from) ==> k < |data| && data[k] == from[0]
  {
  }

  lemma SinksAtWhole(data: string, p: (string, string), m: nat, rank: Rank)
    requires p.0 != "" && IsNameByte(p.0[0]) && rank(First(p.1)) < rank(First(p.0))
    requires WholeAt(data, m, p.0) && forall k :: 0 <= k < m ==> !WholeAt(data, k, p.0)
    ensures SinksAt(data, RestorePair(data, p), m, rank)
  {
    hide First, WholeAt, OccursAt, ReplaceWhole, IsNameByte, RunLength;
    var from, to, end := p.0, p.1, m + |p.0|;
    WholeParts(data, m, from);
    var rest := ReplaceWhole(data, end, from, to);
    ReplaceWholeSkip(data, 0, m, from, to);
    ReplaceHere(data, m, from, to);
    ReplaceKeepsBorder(data, end, from, to);
    FirstOf(from, data[end..]);
    FirstOf(to, rest);
    AfterPrefix(data[0..m], to + rest, m);
  }

  lemma WholeParts(data: string, m: nat, from: string)
    requires WholeAt(data, m, from)
    ensures m + |from| <= |data| && data[m..] == from + data[m + |from|..]
    ensures m == 0 || !IsNameByte(data[m - 1])
    ensures m + |from| == |data| || !IsNameByte(data[m + |from|])
  {
  }

  lemma AfterPrefix(x: string, y: string, m: nat)
    requires m == |x|
    ensures (x + y)[..m] == x && (x + y)[m..] == y
  {
  }

  lemma PairAdvances(data: string, p: (string, string), q: nat, rank: Rank)
    requires Lowers(p, rank) && WholeAt(data, q, p.0)
    ensures Advances(data, RestorePair(data, p), rank)
  {
    hide First, Others, ReplaceWhole, SinksAt;
    assert q < |data| && data[0..] == data;
    if Others(p.0) == Others(p.1) {
      OthersKept(data, 0, p.0, p.1);
      var m := LeastWhole(data, p.0, q);
      SinksAtWhole(data, p, m, rank);
    } else {
      OthersRaised(data, 0, q, p.0, p.1);
    }
  }

  lemma PairKeeps(data: string, p: (string, string))
    requires forall q: nat :: !WholeAt(data, q, p.0)
    ensures RestorePair(data, p) == data
  {
    if p.0 != "" {
      ReplaceWholeSkip(data, 0, |data|, p.0, p.1);
      assert data[0..|data|] + "" == data;
    }
  }

  // ---------- all pairs ----------

  /** Some alias of the pairs occurs in `text` as a whole. */
  ghost predicate Mentions(text: string, pairs: seq<(string, string)>) {
    exists k, q: nat :: 0 <= k < |pairs| && WholeAt(text, q, pairs[k].0)
  }

  lemma MentionsTail(text: string, pairs: seq<(string, string)>)
    requires pairs != [] && forall q: nat :: !WholeAt(text, q, pairs[0].0)
    ensures Mentions(text, pairs) ==> Mentions(text, pairs[1..])
  {
    if Mentions(text, pairs) {
      var k, q: nat :| 0 <= k < |pairs| && WholeAt(text, q, pairs[k].0);
      assert pairs[1..][k - 1] == pairs[k];
    }
  }

  lemma {:induction false} InTurnAdvances(text: string, pairs: seq<(string, string)>, rank: Rank)
    requires forall k :: 0 <= k < |pairs| ==> Lowers(pairs[k], rank)
    ensures var out := RestoreInTurn(text, pairs); if Mentions(text, pairs) then Advances(text, out, rank) else out == text
    decreases |pairs|
  {
    hide Lowers, Advances, WholeAt;
    if pairs != [] {
      var next := RestorePair(text, pairs[0]);
      InTurnAdvances(next, pairs[1..], rank);
      if q: nat :| WholeAt(text, q, pairs[0].0) {
        PairAdvances(text, pairs[0], q, rank);
        if Mentions(next, pairs[1..]) {
          AdvancesTransitive(text, next, RestoreInTurn(text, pairs), rank);
        }
      } else {
        PairKeeps(text, pairs[0]);
        MentionsTail(text, pairs);
        assert Mentions(text, pairs[1..]) ==> Mentions(text, pairs) by {
          if k, q: nat :| 0 <= k < |pairs[1..]| && WholeAt(text, q, pairs[1..][k].0) {
            assert WholeAt(text, q, pairs[k + 1].0);
          }
        }
      }
    }
  }

  /** Going nowhere is not an advance. */
  lemma KeptExactly(text: string, pairs: seq<(string, string)>, rank: Rank)
    requires forall k :: 0 <= k < |pairs| ==> Lowers(pairs[k], rank)
    ensures RestoreInTurn(text, pairs) == text <==> !Mentions(text, pairs)
  {
    hide Lowers, Mentions, RestoreInTurn;
    InTurnAdvances(text, pairs, rank);
  }

  // ---------- the pairs of a built map ----------

  /** Static aliases begin with 'c', the names they stand for do not. */
  function StaticRank(w: string): nat {
    if w != "" && w[0] == 'c' then 1 else 0
  }

  lemma FirstBegins(s: string)
    requires s != "" && IsNameByte(s[0])
    ensures First(s) != "" && First(s)[0] == s[0]
  {
  }

  lemma PrefixSwapLowers(alias: string, prefix: string, rest: string)
    requires NameBytes(alias) && NameBytes(prefix) && alias != "" && prefix != "" && alias[0] == 'c' && prefix[0] != 'c'
    ensures Lowers((alias + rest, prefix + rest), StaticRank)
  {
    OthersNone(alias);
    OthersNone(prefix);
    OthersConcat(alias, rest);
    OthersConcat(prefix, rest);
    hide Others;
    FirstBegins(alias + rest);
    FirstBegins(prefix + rest);
  }

  lemma RuleIsName(r: StaticRule)
    ensures NameBytes(r.Replacement()) && r.Replacement() != "" && r.Replacement()[0] == 'c'
    ensures NameBytes(r.Prefix()) && r.Prefix() != "" && r.Prefix()[0] != 'c'
  {
  }

  lemma StaticLowers(n: string)
    requires StaticAlias(n) != n
    ensures Lowers((StaticAlias(n), n), StaticRank)
  {
    StaticAliasCases(n);
    hide Lowers, StaticAlias, NameBytes;
    var r: StaticRule :| r.Applies(n);
    RuleIsName(r);
    PrefixSwapLowers(r.Replacement(), r.Prefix(), n[|r.Prefix()|..]);
    assert n == r.Prefix() + n[|r.Prefix()|..];
  }

  /** Dynamic aliases rank above every name, and otherwise the shorter is the lower. */
  function DynamicRank(aliases: set<string>, bound: nat, w: string): nat {
    |w| + if w in aliases then bound else 0
  }

  lemma NumberIsName(i: nat)
    ensures NameBytes(TwoDigits(i)) && |TwoDigits(i)| >= 2
  {
    DecimalIsName(i);
    LastTwoDigits(i);
  }

  /** The alias has the other bytes of its name's first three. */
  lemma OthersOfAlias(available: seq<string>, n: string, i: nat)
    requires Arrangement(available)
    ensures var a := DynamicAlias(available, n, i);
      && Others(a) == Others(Head(n)) <= Others(n)
      && IsNameByte(a[0])
  {
    var p, h, d := available[i % POOL_SIZE], Head(n), TwoDigits(i);
    AliasParts(available, n, i);
    NumberIsName(i);
    assert PoolShaped(p) && NameBytes(p);
    OthersNone(p);
    OthersNone(d);
    OthersConcat(h, d);
    OthersConcat(p, h + d);
    OthersConcat(h, n[|h|..]);
    assert n == h + n[|h|..];
  }

  lemma AliasLength(available: seq<string>, n: string, i: nat)
    requires Arrangement(available) && n != ""
    ensures |DynamicAlias(available, n, i)| >= 4
  {
    NumberIsName(i);
    assert PoolShaped(available[i % POOL_SIZE]);
  }

  /** The first identifier of an alias that holds another byte. */
  lemma FirstOfAlias(p: string, h: string, d: string)
    requires NameBytes(p) && !NameBytes(h)
    ensures First(p + h + d) == p + First(h)
  {
    var n := RunLength(h);
    assert forall k :: 0 <= k < |p| ==> (p + h + d)[k] == p[k];
    assert forall k :: |p| <= k < |p| + |h| ==> (p + h + d)[k] == h[k - |p|];
    RunLengthUnique(p + h + d, |p| + n);
  }

  /** An identifier's alias ranks above the identifier. */
  lemma NameRanksLower(a: string, n: string, aliases: set<string>, bound: nat)
    requires NameBytes(n) && NameBytes(a) && a in aliases && n !in aliases && |n| <= bound && a != ""
    ensures DynamicRank(aliases, bound, First(n)) < DynamicRank(aliases, bound, First(a))
  {
    RunLengthUnique(n, |n|);
    RunLengthUnique(a, |a|);
    assert n[..|n|] == n && a[..|a|] == a;
  }

  /** Any other alias begins with a longer identifier than its name. */
  lemma HeadRanksLower(p: string, h: string, d: string, tail: string, aliases: set<string>, bound: nat)
    requires NameBytes(p) && p != "" && !NameBytes(h) && |h| <= 3
    requires forall a :: a in aliases ==> |a| >= 4
    ensures DynamicRank(aliases, bound, First(h + tail)) < DynamicRank(aliases, bound, First(p + h + d))
  {
    FirstOfAlias(p, h, d);
    FirstOfAlias("", h, tail);
    assert "" + h + tail == h + tail && "" + First(h) == First(h);
    assert |First(h)| < |h|;
  }

  lemma DynamicLowers(available: seq<string>, n: string, i: nat, aliases: set<string>, bound: nat)
    requires Arrangement(available) && n != "" && |n| <= bound
    requires DynamicAlias(available, n, i) in aliases && n !in aliases
    requires forall a :: a in aliases ==> |a| >= 4
    ensures Lowers((DynamicAlias(available, n, i), n), w => DynamicRank(aliases, bound, w))
  {
    var a, h, p := DynamicAlias(available, n, i), Head(n), available[i % POOL_SIZE];
    OthersOfAlias(available, n, i);
    AliasLength(available, n, i);
    OthersNone(n);
    OthersNone(a);
    OthersNone(h);
    assert PoolShaped(p) && NameBytes(p) && p != "";
    assert n == h + n[|h|..] && a == p + h + TwoDigits(i);
    hide Others, DynamicRank, First, NameBytes, TwoDigits, Head, DynamicAlias;
    if NameBytes(n) {
      NameRanksLower(a, n, aliases, bound);
    } else if Others(a) == Others(n) {
      HeadRanksLower(p, h, TwoDigits(i), n[|h|..], aliases, bound);
    }
  }

  /** No name is longer than all of them together. */
  function Total(names: seq<string>): nat {
    if names == [] then 0 else |names[0]| + Total(names[1..])
  }

  lemma {:induction false} TotalBounds(names: seq<string>, n: string)
    requires n in names
    ensures |n| <= Total(names)
  {
    if names[0] != n {
      TotalBounds(names[1..], n);
    }
  }

  function RankFor(names: seq<string>, enabled: bool, available: seq<string>): Rank
    requires |available| == POOL_SIZE
  {
    if enabled && |names| > DYNAMIC_THRESHOLD
    then w => DynamicRank(ForwardOf(names, enabled, available).Values, Total(names), w)
    else StaticRank
  }

  lemma RenameLowers(names: seq<string>, enabled: bool, available: seq<string>, n: string)
    requires Arrangement(available) && "" !in names
    requires n in ForwardOf(names, enabled, available)
    ensures Lowers((ForwardOf(names, enabled, available)[n], n), RankFor(names, enabled, available))
  {
    hide DynamicAlias, Lowers, StaticAlias, Total, PoolShaped;
    var forward := ForwardOf(names, enabled, available);
    if enabled && |names| > DYNAMIC_THRESHOLD {
      forall a | a in forward.Values ensures |a| >= 4 {
        var m :| m in forward && forward[m] == a;
        AliasLength(available, m, LastIndex(names, m));
      }
      TotalBounds(names, n);
      DynamicLowers(available, n, LastIndex(names, n), forward.Values, Total(names));
    } else {
      StaticLowers(n);
    }
  }

  /** Every pair is a rename of a declared name. */
  lemma PairIsRename(names: seq<string>, enabled: bool, available: seq<string>, rw: Rewrite, k: nat)
    requires |available| == POOL_SIZE && k < |rw.reverseOrdered|
    requires IsRewriteOf(Some(rw), names, DynamicAliases(names, enabled, available))
    ensures var (alias, n) := rw.reverseOrdered[k];
      && rw.forward == ForwardOf(names, enabled, available)
      && n in rw.forward && rw.forward[n] == alias
      && n in names && alias !in names
      && ReverseMap(names, rw.forward)[alias] == n
  {
    ReverseKeys(names, rw.forward);
  }

  lemma BuiltPairsLower(names: seq<string>, enabled: bool, available: seq<string>, rw: Rewrite)
    requires Arrangement(available) && "" !in names
    requires IsRewriteOf(Some(rw), names, DynamicAliases(names, enabled, available))
    ensures forall k :: 0 <= k < |rw.reverseOrdered| ==> Lowers(rw.reverseOrdered[k], RankFor(names, enabled, available))
  {
    hide Lowers, IsRewriteOf, DynamicAliases, RankFor, ForwardMap;
    forall k | 0 <= k < |rw.reverseOrdered| ensures Lowers(rw.reverseOrdered[k], RankFor(names, enabled, available)) {
      PairIsRename(names, enabled, available, rw, k);
      RenameLowers(names, enabled, available, rw.reverseOrdered[k].1);
    }
  }

  // ---------- the theorems ----------

  /** Whatever bytes the names are made of, the reversal leaves a text alone exactly
      when no alias of the request occurs in it as a whole. */
  lemma TextKeptExactly(names: seq<string>, enabled: bool, available: seq<string>, rw: Rewrite, text: string)
    requires Arrangement(available) && "" !in names
    requires IsRewriteOf(Some(rw), names, DynamicAliases(names, enabled, available))
    ensures RestoreInTurn(text, rw.reverseOrdered) == text <==> !Mentions(text, rw.reverseOrdered)
  {
    hide IsRewriteOf, DynamicAliases, RankFor, Mentions, Lowers;
    BuiltPairsLower(names, enabled, available, rw);
    KeptExactly(text, rw.reverseOrdered, RankFor(names, enabled, available));
  }

  lemma RestoreWholeText(alias: string, name: string)
    requires alias != ""
    ensures RestorePair(alias, (alias, name)) == name
  {
    assert alias[0..|alias|] == alias;
    assert WholeAt(alias, 0, alias);
    assert ReplaceWhole(alias, |alias|, alias, name) == "";
  }

  /** A text no longer than another alias cannot hold it, unless it is that alias. */
  lemma LongerKeeps(text: string, p: (string, string))
    requires |text| <= |p.0| && text != p.0
    ensures RestorePair(text, p) == text
  {
    if p.0 != "" {
      forall q: nat ensures !WholeAt(text, q, p.0) {
        assert text[0..|text|] == text;
      }
      PairKeeps(text, p);
    }
  }

  /** Longest first: no pair before its own touches an alias that is sent alone. */
  lemma {:induction false} OwnPairReached(pairs: seq<(string, string)>, k: nat)
    requires k < |pairs| && LongestFirst(pairs) && KeysDistinct(pairs) && pairs[k].0 != ""
    ensures RestoreInTurn(pairs[k].0, pairs) == RestoreInTurn(pairs[k].1, pairs[k + 1..])
    decreases k
  {
    if k == 0 {
      RestoreWholeText(pairs[0].0, pairs[0].1);
    } else {
      LongerKeeps(pairs[k].0, pairs[0]);
      var rest := pairs[1..];
      assert rest[k - 1] == pairs[k] && rest[k..] == pairs[k + 1..];
      OwnPairReached(rest, k - 1);
    }
  }

  /** An alias sent alone comes back as the name of its pair exactly when no later
      alias, a shorter or equally long one, occurs in that name as a whole. */
  lemma AliasComesBackExactly(names: seq<string>, enabled: bool, available: seq<string>, rw: Rewrite, k: nat)
    requires Arrangement(available) && "" !in names
    requires IsRewriteOf(Some(rw), names, DynamicAliases(names, enabled, available))
    requires k < |rw.reverseOrdered|
    ensures var pairs := rw.reverseOrdered;
      RestoreInTurn(pairs[k].0, pairs) == pairs[k].1 <==> !Mentions(pairs[k].1, pairs[k + 1..])
  {
    hide DynamicAliases, RankFor, Mentions, ForwardMap, ReverseMap, RestoreInTurn;
    var pairs := rw.reverseOrdered;
    var rank := RankFor(names, enabled, available);
    BuiltPairsLower(names, enabled, available, rw);
    OwnPairReached(pairs, k);
    var later := pairs[k + 1..];
    forall j | 0 <= j < |later| ensures Lowers(later[j], rank) {
      assert later[j] == pairs[k + 1 + j];
    }
    KeptExactly(pairs[k].1, later, rank);
  }

  /** Every renamed name is what its alias is restored to. */
  ghost predicate AllComeBack(rw: Rewrite) {
    forall n :: n in rw.forward ==> RestoreInTurn(rw.forward[n], rw.reverseOrdered) == n
  }

  /** No name put back holds the alias of a later pair. */
  ghost predicate NoCascade(pairs: seq<(string, string)>) {
    forall k :: 0 <= k < |pairs| ==> !Mentions(pairs[k].1, pairs[k + 1..])
  }

  /** All aliases come back exactly when they are distinct and no name put back holds
      the alias of a later pair. */
  lemma AllComeBackExactly(names: seq<string>, enabled: bool, available: seq<string>, rw: Rewrite)
    requires Arrangement(available) && "" !in names
    requires IsRewriteOf(Some(rw), names, DynamicAliases(names, enabled, available))
    ensures AllComeBack(rw) <==> Injective(rw.forward) && NoCascade(rw.reverseOrdered)
  {
    hide IsRewriteOf, DynamicAliases, Mentions, ForwardMap, ReverseMap, RestoreInTurn;
    var forward, pairs := rw.forward, rw.reverseOrdered;
    forall k | 0 <= k < |pairs|
      ensures pairs[k].1 in forward && forward[pairs[k].1] == pairs[k].0
      ensures RestoreInTurn(pairs[k].0, pairs) == pairs[k].1 <==> !Mentions(pairs[k].1, pairs[k + 1..])
    {
      PairIsRename(names, enabled, available, rw, k);
      AliasComesBackExactly(names, enabled, available, rw, k);
    }
    if Injective(forward) && NoCascade(pairs) {
      forall n | n in forward ensures RestoreInTurn(forward[n], pairs) == n {
        var k := PairOf(names, enabled, available, rw, n);
      }
    }
  }

  /** The pair of the alias of a renamed name. */
  lemma PairOf(names: seq<string>, enabled: bool, available: seq<string>, rw: Rewrite, n: string) returns (k: nat)
    requires |available| == POOL_SIZE && n in rw.forward
    requires IsRewriteOf(Some(rw), names, DynamicAliases(names, enabled, available))
    ensures k < |rw.reverseOrdered| && rw.reverseOrdered[k].0 == rw.forward[n]
  {
    var reverse := ReverseMap(names, rw.forward);
    ReverseKeys(names, rw.forward);
    assert (rw.forward[n], reverse[rw.forward[n]]) in rw.reverseOrdered;
    k :| k < |rw.reverseOrdered| && rw.reverseOrdered[k] == (rw.forward[n], reverse[rw.forward[n]]);
  }

  /** For identifiers the aliases come back exactly when they are distinct. */
  lemma IdentifiersComeBackExactly(names: seq<string>, enabled: bool, available: seq<string>, rw: Rewrite)
    requires Arrangement(available) && (forall n :: n in names ==> WellFormed(n))
    requires IsRewriteOf(Some(rw), names, DynamicAliases(names, enabled, available))
    ensures AllComeBack(rw) <==> Injective(rw.forward)
    ensures (enabled ==> |names| <= 600) ==> AllComeBack(rw)
  {
    hide IsRewriteOf, DynamicAliases, Injective, ForwardMap, AllComeBack, WholeAt;
    var pairs := rw.reverseOrdered;
    AllComeBackExactly(names, enabled, available, rw);
    forall k | 0 <= k < |pairs| ensures !Mentions(pairs[k].1, pairs[k + 1..]) {
      PairIsRename(names, enabled, available, rw, k);
      var n, later := pairs[k].1, pairs[k + 1..];
      forall j, q: nat | 0 <= j < |later| ensures !WholeAt(n, q, later[j].0) {
        assert later[j] == pairs[k + 1 + j];
        PairIsRename(names, enabled, available, rw, k + 1 + j);
        RenameWellFormed(names, enabled, available, later[j].1);
        WholeInName(n, q, later[j].0);
      }
    }
    if enabled ==> |names| <= 600 {
      AliasesDistinct(names, enabled, available);
      BuiltForward(names, enabled, available, rw);
    }
  }

  lemma BuiltForward(names: seq<string>, enabled: bool, available: seq<string>, rw: Rewrite)
    requires |available| == POOL_SIZE
    requires IsRewriteOf(Some(rw), names, DynamicAliases(names, enabled, available))
    ensures rw.forward == ForwardOf(names, enabled, available)
  {
  }

  lemma RenameWellFormed(names: seq<string>, enabled: bool, available: seq<string>, n: string)
    requires Arrangement(available) && n in names && WellFormed(n)
    requires n in ForwardOf(names, enabled, available)
    ensures WellFormed(ForwardOf(names, enabled, available)[n])
  {
    AliasWellFormed(names, enabled, available, n);
  }

  lemma WholeInName(name: string, q: nat, from: string)
    requires WellFormed(name) && WellFormed(from)
    ensures WholeAt(name, q, from) ==> name == from
  {
    if q < |name| {
      WholeInRun(name, 0, |name|, from, q);
      assert name[0..|name|] == name;
    }
  }

  // ---------- many aliases in one chunk ----------

  /** The pieces with one byte between any two, as names between quotes. */
  function Joined(pieces: seq<string>, d: char): string
    requires pieces != []
  {
    if |pieces| == 1 then pieces[0] else pieces[0] + ([d] + Joined(pieces[1..], d))
  }

  /** The byte cannot be part of an alias, nor of an identifier. */
  ghost predicate Separates(d: char, from: string) {
    !IsNameByte(d) && d !in from
  }

  lemma WholeBefore(x: string, d: char, y: string, k: nat, from: string)
    requires from != "" && Separates(d, from) && k <= |x|
    ensures WholeAt(x + ([d] + y), k, from) <==> WholeAt(x, k, from)
  {
    var s := x + ([d] + y);
    assert s[|x|] == d;
    if k + |from| <= |x| {
      assert s[k..k + |from|] == x[k..k + |from|];
    } else if k + |from| <= |s| {
      assert s[k..k + |from|][|x| - k] == d;
    }
  }

  lemma WholeAfter(x: string, d: char, y: string, j: nat, from: string)
    requires from != "" && Separates(d, from) && j <= |y|
    ensures WholeAt(x + ([d] + y), |x| + 1 + j, from) <==> WholeAt(y, j, from)
  {
    var s, k := x + ([d] + y), |x| + 1 + j;
    assert s[|x|] == d && s[|x| + 1..] == y;
    if j + |from| <= |y| {
      assert s[k..k + |from|] == y[j..j + |from|];
    }
  }

  lemma {:induction false} ReplaceAfter(x: string, d: char, y: string, j: nat, from: string, to: string)
    requires from != "" && Separates(d, from) && j <= |y|
    ensures ReplaceWhole(x + ([d] + y), |x| + 1 + j, from, to) == ReplaceWhole(y, j, from, to)
    decreases |y| - j
  {
    hide WholeAt, Separates, ReplaceWhole;
    var s, k := x + ([d] + y), |x| + 1 + j;
    if j == |y| {
      ScanEnd(s, k, from, to);
      ScanEnd(y, j, from, to);
    } else {
      WholeAfter(x, d, y, j, from);
      WholeFits(y, j, from);
      ScanStep(s, k, from, to);
      ScanStep(y, j, from, to);
      ReplaceAfter(x, d, y, if WholeAt(y, j, from) then j + |from| else j + 1, from, to);
    }
  }

  lemma ScanEnd(data: string, k: nat, from: string, to: string)
    requires from != "" && k == |data|
    ensures ReplaceWhole(data, k, from, to) == ""
  {
  }

  lemma ScanStep(data: string, k: nat, from: string, to: string)
    requires from != "" && k < |data|
    ensures WholeAt(data, k, from) ==>
      k + |from| <= |data| && ReplaceWhole(data, k, from, to) == to + ReplaceWhole(data, k + |from|, from, to)
    ensures !WholeAt(data, k, from) ==> ReplaceWhole(data, k, from, to) == [data[k]] + ReplaceWhole(data, k + 1, from, to)
  {
  }

  lemma WholeFits(s: string, k: nat, from: string)
    ensures WholeAt(s, k, from) ==> k + |from| <= |s|
  {
  }

  lemma {:induction false} ReplaceAcross(x: string, d: char, y: string, k: nat, from: string, to: string)
    requires from != "" && Separates(d, from) && k <= |x|
    ensures ReplaceWhole(x + ([d] + y), k, from, to) == ReplaceWhole(x, k, from, to) + ([d] + ReplaceWhole(y, 0, from, to))
    decreases |x| - k
  {
    hide WholeAt, Separates;
    var s, after := x + ([d] + y), [d] + ReplaceWhole(y, 0, from, to);
    WholeBefore(x, d, y, k, from);
    WholeFits(x, k, from);
    if k == |x| {
      ReplaceAfter(x, d, y, 0, from, to);
      assert s[k] == d;
    } else if WholeAt(x, k, from) {
      ReplaceAcross(x, d, y, k + |from|, from, to);
      assert to + (ReplaceWhole(x, k + |from|, from, to) + after) == (to + ReplaceWhole(x, k + |from|, from, to)) + after;
    } else {
      ReplaceAcross(x, d, y, k + 1, from, to);
      assert s[k] == x[k];
      assert [x[k]] + (ReplaceWhole(x, k + 1, from, to) + after) == ([x[k]] + ReplaceWhole(x, k + 1, from, to)) + after;
    }
  }

  lemma {:induction false} RestoreAcross(x: string, d: char, y: string, pairs: seq<(string, string)>)
    requires forall k :: 0 <= k < |pairs| ==> Separates(d, pairs[k].0)
    ensures RestoreInTurn(x + ([d] + y), pairs) == RestoreInTurn(x, pairs) + ([d] + RestoreInTurn(y, pairs))
    decreases |pairs|
  {
    hide ReplaceWhole, Separates;
    if pairs != [] {
      var p := pairs[0];
      if p.0 != "" {
        ReplaceAcross(x, d, y, 0, p.0, p.1);
      }
      RestoreAcross(RestorePair(x, p), d, RestorePair(y, p), pairs[1..]);
    }
  }

  /** Whatever the names put back hold, pieces so separated are restored one by one. */
  lemma {:induction false} RestoreJoined(pieces: seq<string>, d: char, pairs: seq<(string, string)>)
    requires pieces != [] && forall k :: 0 <= k < |pairs| ==> Separates(d, pairs[k].0)
    ensures RestoreInTurn(Joined(pieces, d), pairs) == Joined(MapSeq(pieces, p => RestoreInTurn(p, pairs)), d)
    decreases |pieces|
  {
    hide RestoreInTurn, Separates;
    var f := p => RestoreInTurn(p, pairs);
    if |pieces| > 1 {
      RestoreAcross(pieces[0], d, Joined(pieces[1..], d), pairs);
      RestoreJoined(pieces[1..], d, pairs);
      assert MapSeq(pieces, f)[1..] == MapSeq(pieces[1..], f);
    }
  }

  /** One chunk that quotes any number of aliases between other text: if no name holds
      the quote and each alias comes back alone, all of them do, and the rest stays. */
  lemma ChunkComesBack(names: seq<string>, enabled: bool, available: seq<string>, rw: Rewrite, pieces: seq<string>, d: char)
    requires Arrangement(available) && "" !in names && !IsNameByte(d) && forall n :: n in names ==> d !in n
    requires IsRewriteOf(Some(rw), names, DynamicAliases(names, enabled, available))
    requires AllComeBack(rw)
    requires pieces != [] && forall k :: 0 <= k < |pieces| ==>
      pieces[k] in rw.forward.Values || !Mentions(pieces[k], rw.reverseOrdered)
    ensures RestoreInTurn(Joined(pieces, d), rw.reverseOrdered)
         == Joined(MapSeq(pieces, p => Lookup(ReverseMap(names, rw.forward), p)), d)
  {
    hide IsRewriteOf, DynamicAliases, Mentions, RestoreInTurn, Lookup, ForwardOf;
    var pairs, reverse := rw.reverseOrdered, ReverseMap(names, rw.forward);
    BuiltForward(names, enabled, available, rw);
    forall k | 0 <= k < |pairs| ensures Separates(d, pairs[k].0) {
      PairIsRename(names, enabled, available, rw, k);
      AliasBringsNoOther(names, enabled, available, pairs[k].1, d);
    }
    forall k | 0 <= k < |pieces| ensures RestoreInTurn(pieces[k], pairs) == Lookup(reverse, pieces[k]) {
      PieceComesBack(names, enabled, available, rw, pieces[k]);
    }
    RestoreJoined(pieces, d, pairs);
    assert MapSeq(pieces, p => RestoreInTurn(p, pairs)) == MapSeq(pieces, p => Lookup(reverse, p));
  }

  lemma PieceComesBack(names: seq<string>, enabled: bool, available: seq<string>, rw: Rewrite, piece: string)
    requires Arrangement(available) && "" !in names && AllComeBack(rw)
    requires IsRewriteOf(Some(rw), names, DynamicAliases(names, enabled, available))
    requires piece in rw.forward.Values || !Mentions(piece, rw.reverseOrdered)
    ensures RestoreInTurn(piece, rw.reverseOrdered) == Lookup(ReverseMap(names, rw.forward), piece)
  {
    hide DynamicAliases, RestoreInTurn, ForwardMap;
    var reverse := ReverseMap(names, rw.forward);
    ReverseKeys(names, rw.forward);
    if piece !in rw.forward.Values {
      TextKeptExactly(names, enabled, available, rw, piece);
    } else {
      var n :| n in rw.forward && rw.forward[n] == piece;
      var k := PairOf(names, enabled, available, rw, n);
      PairIsRename(names, enabled, available, rw, k);
    }
  }

  // ---------- names that are not identifiers ----------

  const PLAIN := "mcp_a"
  const SPACED := "mcp_b cc_mcp_a"

  lemma McpAlias(name: string, alias: string)
    requires Mcp.Applies(name) && alias == Mcp.Rename(name)
    ensures StaticAlias(name) == alias
  {
    StaticAliasCases(name);
  }

  lemma PlainAlias()
    ensures StaticAlias(PLAIN) == "cc_mcp_a"
  {
  }

  lemma SpacedAlias()
    ensures StaticAlias(SPACED) == "cc_mcp_b cc_mcp_a"
  {
    assert SPACED[4..] == "b cc_mcp_a";
    McpAlias(SPACED, "cc_mcp_b cc_mcp_a");
  }

  lemma AliasesOfPair(x: string, y: string, ax: string, ay: string)
    requires StaticAlias(x) == ax && StaticAlias(y) == ay && |x| < |ax| < |y| < |ay|
    ensures ForwardMap([x, y], None) == map[x := ax, y := ay]
  {
  }

  lemma RestoreAfterSpace(word: string, inner: string, name: string)
    requires WellFormed(word) && WellFormed(inner) && word != inner
    ensures RestorePair(word + (" " + inner), (inner, name)) == word + (" " + name)
  {
    var spaced, m := word + (" " + inner), map[inner := name];
    ReplaceWholeIsSubst(spaced, 0, inner, name);
    assert spaced[0..] == spaced;
    SubstSplit(word, " " + inner, m);
    SubstWord(word, m);
    assert (" " + inner)[1..] == inner;
    SubstWord(inner, m);
  }

  /** A name made of a word, a space and the alias of another name is not restored:
      the later pair rewrites what the earlier one has just put back. */
  lemma PairsCascade(alias: string, word: string, inner: string, name: string)
    requires alias != "" && WellFormed(word) && WellFormed(inner) && word != inner
    ensures RestoreInTurn(alias, [(alias, word + (" " + inner)), (inner, name)]) == word + (" " + name)
  {
    RestoreWholeText(alias, word + (" " + inner));
    RestoreAfterSpace(word, inner, name);
    var pairs := [(alias, word + (" " + inner)), (inner, name)];
    assert pairs[1..] == [(inner, name)];
    var x, y := word + (" " + inner), word + (" " + name);
    assert RestoreInTurn(y, [(inner, name)][1..]) == y;
    assert RestoreInTurn(x, [(inner, name)]) == y;
    assert RestoreInTurn(alias, pairs) == RestoreInTurn(x, pairs[1..]);
  }

  /** The maps are built without looking at the bytes of a name, so this happens to
      a request that declares "mcp_a" and "mcp_b cc_mcp_a". */
  lemma NotRestoredAcrossSpace()
    ensures ForwardMap([PLAIN, SPACED], None) == map[PLAIN := "cc_mcp_a", SPACED := "cc_mcp_b cc_mcp_a"]
    ensures RestoreInTurn("cc_mcp_b cc_mcp_a", [("cc_mcp_b cc_mcp_a", SPACED), ("cc_mcp_a", PLAIN)]) != SPACED
  {
    PlainAlias();
    SpacedAlias();
    AliasesOfPair(PLAIN, SPACED, "cc_mcp_a", "cc_mcp_b cc_mcp_a");
    var word, inner := "mcp_b", "cc_mcp_a";
    assert |word| == 5 && |inner| == 8 && |PLAIN| == 5;
    assert SPACED == word + (" " + inner);
    PairsCascade("cc_mcp_b cc_mcp_a", word, inner, PLAIN);
    assert |word + (" " + PLAIN)| == 11 && |SPACED| == 14;
  }
}
