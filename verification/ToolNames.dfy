/** Aliases for tool names: the static prefixes, and the dynamic aliases built
    from a shuffled pool of prefixes. */
module ToolNames {
  import opened Text
  import opened Identifiers

  // ---------- the static renames ----------

  /** The entries of the static rename table. */
  datatype StaticRule = Sessions | Session | Mcp {
    function Prefix(): string {
      match this
      case Sessions => "sessions_"
      case Session => "session_"
      case Mcp => "mcp_"
    }

    function Replacement(): string {
      match this
      case Sessions => "cc_sess_"
      case Session => "cc_ses_"
      case Mcp => "cc_mcp_"
    }

    predicate Applies(name: string) {
      Prefix() <= name && (Mcp? ==> StartsLowerAlnum(name[|Prefix()|..]))
    }

    function Rename(name: string): string
      requires Applies(name)
    {
      Replacement() + name[|Prefix()|..]
    }
  }

  predicate StartsLowerAlnum(s: string) {
    s != "" && ('a' <= s[0] <= 'z' || '0' <= s[0] <= '9')
  }

  /** The loop over the rules in the order the map happens to be ranged over. */
  function StaticAliasIn(rules: seq<StaticRule>, name: string): string {
    if rules == [] then name
    else if rules[0].Applies(name) then rules[0].Rename(name)
    else StaticAliasIn(rules[1..], name)
  }

  function StaticAlias(name: string): string {
    StaticAliasIn([Sessions, Session, Mcp], name)
  }

  /** `rules` is the three rules in some order. */
  ghost predicate RangeOrder(rules: seq<StaticRule>) {
    |rules| == 3 && Sessions in rules && Session in rules && Mcp in rules
  }

  /** At most one rule renames a name, and no replacement is a prefix of another. */
  lemma RulesExclusive(r: StaticRule, q: StaticRule, name: string)
    ensures r.Applies(name) && q.Applies(name) ==> r == q
    ensures r.Replacement() <= name && q.Replacement() <= name ==> r == q
  {
    if r.Applies(name) && q.Applies(name) {
      assert name[0] == r.Prefix()[0] == q.Prefix()[0];
      assert !r.Mcp? && !q.Mcp? ==> name[7] == r.Prefix()[7] == q.Prefix()[7];
    }
    if r.Replacement() <= name && q.Replacement() <= name {
      assert name[3] == r.Replacement()[3] == q.Replacement()[3];
      assert !r.Mcp? && !q.Mcp? ==> name[6] == r.Replacement()[6] == q.Replacement()[6];
    }
  }

  lemma {:induction false} StaticAliasBy(rules: seq<StaticRule>, r: StaticRule, name: string)
    requires r in rules && r.Applies(name)
    ensures StaticAliasIn(rules, name) == r.Rename(name)
  {
    RulesExclusive(rules[0], r, name);
    if rules[0] != r {
      StaticAliasBy(rules[1..], r, name);
    }
  }

  lemma {:induction false} StaticAliasNone(rules: seq<StaticRule>, name: string)
    requires forall r: StaticRule :: !r.Applies(name)
    ensures StaticAliasIn(rules, name) == name
  {
    if rules != [] {
      StaticAliasNone(rules[1..], name);
    }
  }

  /** What the static table does to a name, without an order. */
  lemma StaticAliasCases(name: string)
    ensures forall r: StaticRule :: r.Applies(name) ==> StaticAlias(name) == r.Rename(name)
    ensures (forall r: StaticRule :: !r.Applies(name)) ==> StaticAlias(name) == name
  {
    forall r: StaticRule | r.Applies(name) ensures StaticAlias(name) == r.Rename(name) {
      StaticAliasBy([Sessions, Session, Mcp], r, name);
    }
    if forall r: StaticRule :: !r.Applies(name) {
      StaticAliasNone([Sessions, Session, Mcp], name);
    }
  }

  /** The random order of Go's map range does not matter. */
  lemma StaticAliasAnyOrder(rules: seq<StaticRule>, name: string)
    requires RangeOrder(rules)
    ensures StaticAliasIn(rules, name) == StaticAlias(name)
  {
    StaticAliasCases(name);
    if r: StaticRule :| r.Applies(name) {
      assert r in rules;
      StaticAliasBy(rules, r, name);
    } else {
      StaticAliasNone(rules, name);
    }
  }

  /** The name of which `a` would be the alias by rule `r`. */
  function Unrename(r: StaticRule, a: string): string
    requires r.Replacement() <= a
  {
    r.Prefix() + a[|r.Replacement()|..]
  }

  /** Rule `r` makes `a` out of some name. */
  predicate Unrenames(r: StaticRule, a: string) {
    r.Replacement() <= a && r.Applies(Unrename(r, a))
  }

  /** The reversal of a static alias, in the order the map happens to be ranged over. */
  function UnaliasIn(rules: seq<StaticRule>, a: string): string {
    if rules == [] then a
    else if rules[0].Replacement() <= a then Unrename(rules[0], a)
    else UnaliasIn(rules[1..], a)
  }

  function UnaliasToolName(a: string): string {
    UnaliasIn([Sessions, Session, Mcp], a)
  }

  lemma {:induction false} UnaliasBy(rules: seq<StaticRule>, r: StaticRule, a: string)
    requires r in rules && r.Replacement() <= a
    ensures UnaliasIn(rules, a) == Unrename(r, a)
  {
    RulesExclusive(rules[0], r, a);
    if rules[0] != r {
      UnaliasBy(rules[1..], r, a);
    }
  }

  lemma {:induction false} UnaliasAnyOrder(rules: seq<StaticRule>, a: string)
    requires RangeOrder(rules)
    ensures UnaliasIn(rules, a) == UnaliasToolName(a)
  {
    if r: StaticRule :| r.Replacement() <= a {
      assert r in rules && r in [Sessions, Session, Mcp];
      UnaliasBy(rules, r, a);
      UnaliasBy([Sessions, Session, Mcp], r, a);
    } else {
      UnaliasNone(rules, a);
      UnaliasNone([Sessions, Session, Mcp], a);
    }
  }

  lemma {:induction false} UnaliasNone(rules: seq<StaticRule>, a: string)
    requires forall r: StaticRule :: !(r.Replacement() <= a)
    ensures UnaliasIn(rules, a) == a
  {
    if rules != [] {
      UnaliasNone(rules[1..], a);
    }
  }

  /** `a` is what the static table makes of some name. */
  ghost predicate AliasShaped(a: string) {
    exists r: StaticRule :: Unrenames(r, a)
  }

  /** The static table and its reversal, on names that look like aliases. */
  lemma AliasShapedInverse(a: string)
    requires AliasShaped(a)
    ensures StaticAlias(UnaliasToolName(a)) == a != UnaliasToolName(a)
    ensures StaticAlias(a) == a
  {
    var r: StaticRule :| Unrenames(r, a);
    UnaliasBy([Sessions, Session, Mcp], r, a);
    UnrenameInverse(r, a);
    StaticAliasCases(Unrename(r, a));
    AliasNotRenamed(r, a);
  }

  /** A renamed name comes back. */
  lemma UnaliasInverse(name: string)
    requires StaticAlias(name) != name
    ensures AliasShaped(StaticAlias(name)) && UnaliasToolName(StaticAlias(name)) == name
  {
    StaticAliasCases(name);
    var r: StaticRule :| r.Applies(name);
    RenameInverse(r, name);
    UnaliasBy([Sessions, Session, Mcp], r, r.Rename(name));
  }

  lemma RenameInverse(r: StaticRule, name: string)
    requires r.Applies(name)
    ensures Unrenames(r, r.Rename(name)) && Unrename(r, r.Rename(name)) == name
  {
    var a := r.Rename(name);
    assert a[|r.Replacement()|..] == name[|r.Prefix()|..];
    assert r.Prefix() + name[|r.Prefix()|..] == name;
  }

  lemma UnrenameInverse(r: StaticRule, a: string)
    requires Unrenames(r, a)
    ensures r.Applies(Unrename(r, a)) && r.Rename(Unrename(r, a)) == a
  {
  }

  /** Two names the table renames to the same alias are the same name. */
  lemma StaticAliasInjective(n1: string, n2: string)
    requires StaticAlias(n1) != n1 && StaticAlias(n2) != n2
    requires StaticAlias(n1) == StaticAlias(n2)
    ensures n1 == n2
  {
    StaticAliasCases(n1);
    StaticAliasCases(n2);
    var r1: StaticRule :| r1.Applies(n1);
    var r2: StaticRule :| r2.Applies(n2);
    RenameInverse(r1, n1);
    RenameInverse(r2, n2);
    RulesExclusive(r1, r2, StaticAlias(n1));
  }

  /** An alias is never renamed again. */
  lemma AliasNotRenamed(r: StaticRule, a: string)
    requires r.Replacement() <= a
    ensures forall q: StaticRule :: !q.Applies(a)
    ensures StaticAlias(a) == a
  {
    assert a[0] == r.Replacement()[0] == 'c';
    forall q: StaticRule ensures !q.Applies(a) {
      assert q.Prefix()[0] != 'c';
    }
    StaticAliasCases(a);
  }

  // ---------- the table, entry by entry ----------

  predicate LowerAlnum(c: char) {
    c in "abcdefghijklmnopqrstuvwxyz" + "0123456789"
  }

  /** A name that matches ^mcp_[a-z0-9], which the upstream answers with an error. */
  predicate Refused(name: string) {
    && |name| > 4 && name[0] == 'm' && name[1] == 'c' && name[2] == 'p' && name[3] == '_'
    && LowerAlnum(name[4])
  }

  lemma LowerAlnumListed(s: string)
    ensures StartsLowerAlnum(s) <==> s != "" && LowerAlnum(s[0])
  {
    if s != "" {
      InLower(s[0]);
      InDigits(s[0]);
      InJoined(LOWER, DIGITS, s[0]);
    }
  }

  lemma RefusedIsRenamed(name: string)
    ensures Refused(name) <==> Mcp.Applies(name)
  {
    hide StartsLowerAlnum, LowerAlnum;
    if |name| >= 4 {
      LowerAlnumListed(name[4..]);
    }
  }

  lemma RuleLiterals(n: string)
    ensures Sessions.Applies(n) <==> "sessions_" <= n
    ensures Session.Applies(n) <==> "session_" <= n
    ensures Sessions.Applies(n) ==> Sessions.Rename(n) == "cc_sess_" + n[9..]
    ensures Session.Applies(n) ==> Session.Rename(n) == "cc_ses_" + n[8..]
    ensures Mcp.Applies(n) ==> Mcp.Rename(n) == "cc_mcp_" + n[4..]
  {
  }

  lemma ReplacementLiterals(a: string)
    ensures Sessions.Replacement() == "cc_sess_" && Session.Replacement() == "cc_ses_" && Mcp.Replacement() == "cc_mcp_"
    ensures Sessions.Replacement() <= a ==> Unrename(Sessions, a) == "sessions_" + a[8..]
    ensures Session.Replacement() <= a ==> Unrename(Session, a) == "session_" + a[7..]
    ensures Mcp.Replacement() <= a ==> Unrename(Mcp, a) == "mcp_" + a[7..]
  {
  }

  /** What every name is sent as when only the table is used. */
  lemma StaticTable(n: string)
    ensures StaticAlias(n) ==
      if "sessions_" <= n then "cc_sess_" + n[9..]
      else if "session_" <= n then "cc_ses_" + n[8..]
      else if Refused(n) then "cc_mcp_" + n[4..]
      else n
  {
    hide StaticAlias, Refused;
    RefusedIsRenamed(n);
    StaticAliasCases(n);
    RuleLiterals(n);
    assert Sessions.Applies(n) || Session.Applies(n) || Mcp.Applies(n) || forall r: StaticRule :: !r.Applies(n);
  }

  /** And what every alias is read back as. */
  lemma StaticTableBack(a: string)
    ensures UnaliasToolName(a) ==
      if "cc_sess_" <= a then "sessions_" + a[8..]
      else if "cc_ses_" <= a then "session_" + a[7..]
      else if "cc_mcp_" <= a then "mcp_" + a[7..]
      else a
  {
    hide UnaliasToolName, Unrename;
    ReplacementLiterals(a);
    if r: StaticRule :| r.Replacement() <= a {
      UnaliasRule(r, a);
      RulesExclusive(r, Sessions, a);
      RulesExclusive(r, Session, a);
    } else {
      UnaliasNothing(a);
    }
  }

  lemma UnaliasRule(r: StaticRule, a: string)
    requires r.Replacement() <= a
    ensures UnaliasToolName(a) == Unrename(r, a)
  {
    UnaliasBy([Sessions, Session, Mcp], r, a);
  }

  lemma UnaliasNothing(a: string)
    requires forall r: StaticRule :: !(r.Replacement() <= a)
    ensures UnaliasToolName(a) == a
  {
    UnaliasNone([Sessions, Session, Mcp], a);
  }

  /** The law the table is for: no alias is refused, and a name is renamed by the
      "mcp_" entry only if it would be. */
  lemma NoAliasRefused(n: string)
    ensures !Refused(StaticAlias(n))
    ensures "mcp_" <= n && !Refused(n) ==> StaticAlias(n) == n
  {
    RefusedIsRenamed(n);
    RefusedIsRenamed(StaticAlias(n));
    StaticAliasCases(n);
    if r: StaticRule :| r.Applies(n) {
      AliasNotRenamed(r, r.Rename(n));
    }
    if "mcp_" <= n {
      RulesExclusive(Mcp, Mcp, n);
      assert n[0] == 'm';
      forall r: StaticRule | r.Applies(n) ensures r == Mcp {
        assert r.Prefix()[0] == n[0];
      }
    }
  }

  // ---------- decimal numbers ----------

  function Digit(d: nat): char
    requires d < 10
  {
    "0123456789"[d]
  }

  function Decimal(n: nat): (s: string)
    ensures s != ""
  {
    if n < 10 then [Digit(n)] else Decimal(n / 10) + [Digit(n % 10)]
  }

  /** The "%02d" verb. */
  function TwoDigits(n: nat): string {
    if n < 10 then "0" + Decimal(n) else Decimal(n)
  }

  /** A text of digits, read as a decimal number. */
  function Number(s: string): int {
    if s == "" then 0 else 10 * Number(s[..|s| - 1]) + (s[|s| - 1] as int - '0' as int)
  }

  predicate IsDigits(s: string) {
    s != "" && forall k :: 0 <= k < |s| ==> '0' <= s[k] <= '9'
  }

  lemma DigitReads(d: nat)
    requires d < 10
    ensures '0' <= Digit(d) <= '9' && Digit(d) as int - '0' as int == d
  {
  }

  lemma {:induction false} DecimalReads(n: nat)
    ensures IsDigits(Decimal(n)) && Number(Decimal(n)) == n
  {
    hide Digit;
    DigitReads(n % 10);
    if n >= 10 {
      DecimalReads(n / 10);
      assert Decimal(n)[..|Decimal(n)| - 1] == Decimal(n / 10);
    } else {
      assert [Digit(n)][..0] == "";
    }
  }

  /** Two digits or more that read as the number; a third only where it is needed. */
  lemma TwoDigitsRead(n: nat)
    ensures var s := TwoDigits(n);
      IsDigits(s) && Number(s) == n && |s| >= 2 && (|s| > 2 ==> s[0] != '0')
  {
    DecimalReads(n);
    if n < 10 {
      var s := "0" + Decimal(n);
      assert s[..1] == "0" && "0"[..0] == "";
    } else {
      DecimalNoLeadingZero(n);
    }
  }

  lemma DigitInjective(c: nat, d: nat)
    requires c < 10 && d < 10 && Digit(c) == Digit(d)
    ensures c == d
  {
  }

  lemma {:induction false} DecimalInjective(m: nat, n: nat)
    requires Decimal(m) == Decimal(n)
    ensures m == n
  {
    var s := Decimal(m);
    if m >= 10 && n >= 10 {
      assert s[..|s| - 1] == Decimal(m / 10) == Decimal(n / 10);
      DecimalInjective(m / 10, n / 10);
      DigitInjective(m % 10, n % 10);
    } else if m < 10 && n < 10 {
      DigitInjective(m, n);
    }
  }

  lemma {:induction false} DecimalNoLeadingZero(n: nat)
    requires n > 0
    ensures Decimal(n)[0] != '0'
  {
    if n >= 10 {
      DecimalNoLeadingZero(n / 10);
    }
  }

  lemma TwoDigitsInjective(m: nat, n: nat)
    requires TwoDigits(m) == TwoDigits(n)
    ensures m == n
  {
    if m < 10 && n < 10 {
      assert TwoDigits(m)[1..] == Decimal(m) && TwoDigits(n)[1..] == Decimal(n);
    } else {
      if m >= 10 { DecimalNoLeadingZero(m); }
      if n >= 10 { DecimalNoLeadingZero(n); }
    }
    DecimalInjective(m, n);
  }

  lemma LastTwoDigits(n: nat)
    ensures var s := TwoDigits(n); |s| >= 2 && s[|s| - 2] == Digit(n / 10 % 10) && s[|s| - 1] == Digit(n % 10)
  {
    if n >= 10 {
      var q := n / 10;
      assert Decimal(q)[|Decimal(q)| - 1] == Digit(q % 10);
    }
  }

  lemma {:induction false} DecimalIsName(n: nat)
    ensures NameBytes(Decimal(n))
    ensures '_' !in Decimal(n)
  {
    if n >= 10 {
      DecimalIsName(n / 10);
    }
  }

  // ---------- the dynamic aliases ----------

  const POOL: seq<string> := [
    "analyze_", "compute_", "fetch_", "generate_", "lookup_", "modify_",
    "process_", "query_", "render_", "resolve_", "sync_", "update_",
    "validate_", "convert_", "extract_", "manage_", "monitor_", "parse_",
    "review_", "search_", "transform_", "handle_", "invoke_", "notify_"
  ]

  const POOL_SIZE := 24

  ghost predicate Distinct<T(!new)>(s: seq<T>) {
    forall i, j :: 0 <= i < j < |s| ==> s[i] != s[j]
  }

  /** A prefix with its only '_' at the end. */
  predicate PoolShaped(p: string) {
    p != "" && p[|p| - 1] == '_' && forall k :: 0 <= k < |p| - 1 ==> 'a' <= p[k] <= 'z'
  }

  /** All that is used of the shuffled pool: 24 different prefixes of that shape.
      `ShufflePool` shows that every shuffle of the pool is one. */
  ghost predicate Arrangement(available: seq<string>) {
    |available| == POOL_SIZE && Distinct(available) && forall k :: 0 <= k < |available| ==> PoolShaped(available[k])
  }

  /** The pool in some order. */
  ghost predicate Shuffled(available: seq<string>) {
    |available| == 24 && multiset(available) == multiset(POOL)
  }

  /** Position in the pool, read off the first three letters. */
  function PoolIndex(p: string): int {
    if |p| < 3 then -1
    else
      match p[0]
      case 'a' => 0
      case 'c' => if p[2] == 'm' then 1 else 13
      case 'e' => 14
      case 'f' => 2
      case 'g' => 3
      case 'h' => 21
      case 'i' => 22
      case 'l' => 4
      case 'm' => if p[1] == 'a' then 15 else if p[2] == 'd' then 5 else 16
      case 'n' => 23
      case 'p' => if p[1] == 'a' then 17 else 6
      case 'q' => 7
      case 'r' => if p[2] == 'n' then 8 else if p[2] == 's' then 9 else 18
      case 's' => if p[1] == 'y' then 10 else 19
      case 't' => 20
      case 'u' => 11
      case _ => 12
  }

  predicate InPlace(p: string, k: nat) {
    PoolShaped(p) && PoolIndex(p) == k
  }

  lemma FirstPoolEntries(k: nat)
    requires k < 8
    ensures InPlace(POOL[k], k)
  {
  }

  lemma MiddlePoolEntries(k: nat)
    requires 8 <= k < 16
    ensures InPlace(POOL[k], k)
  {
  }

  lemma LastPoolEntries(k: nat)
    requires 16 <= k < |POOL|
    ensures InPlace(POOL[k], k)
  {
  }

  lemma ArrangementByIndex(pool: seq<string>)
    requires |pool| == POOL_SIZE && forall k :: 0 <= k < |pool| ==> InPlace(pool[k], k)
    ensures Arrangement(pool)
  {
  }

  lemma PoolIsArrangement()
    ensures Arrangement(POOL)
  {
    forall k | 0 <= k < POOL_SIZE ensures InPlace(POOL[k], k) {
      if k < 8 { FirstPoolEntries(k); } else if k < 16 { MiddlePoolEntries(k); } else { LastPoolEntries(k); }
    }
    ArrangementByIndex(POOL);
  }

  lemma SwapKeepsArrangement(s: seq<string>, i: nat, j: nat, t: seq<string>)
    requires Arrangement(s) && i < |s| && j < |s| && t == s[i := s[j]][j := s[i]]
    ensures Arrangement(t) && multiset(t) == multiset(s)
  {
  }

  /** Copies the pool and swaps entries as the random source dictates. */
  method ShufflePool(pool: seq<string>, swaps: seq<(nat, nat)>) returns (available: seq<string>)
    requires Arrangement(pool)
    requires forall k :: 0 <= k < |swaps| ==> swaps[k].0 < |pool| && swaps[k].1 < |pool|
    ensures multiset(available) == multiset(pool)
    ensures Arrangement(available)
  {
    available := pool;
    for k := 0 to |swaps|
      invariant multiset(available) == multiset(pool)
      invariant Arrangement(available)
    {
      var i, j := swaps[k].0, swaps[k].1;
      SwapKeepsArrangement(available, i, j, available[i := available[j]][j := available[i]]);
      available := available[i := available[j]][j := available[i]];
    }
  }

  function Head(name: string): string {
    name[..if |name| < 3 then |name| else 3]
  }

  /** The alias of the `i`-th mimicable tool. */
  function DynamicAlias(available: seq<string>, name: string, i: nat): string
    requires |available| == POOL_SIZE
  {
    available[i % POOL_SIZE] + Head(name) + TwoDigits(i)
  }

  lemma FirstUnderscore(p: string, x: string)
    requires PoolShaped(p)
    ensures (p + x)[|p| - 1] == '_' && forall k :: 0 <= k < |p| - 1 ==> (p + x)[k] != '_'
  {
  }

  /** The pool is a prefix code: what follows can be read back. */
  lemma PrefixCode(p: string, x: string, q: string, y: string)
    requires PoolShaped(p) && PoolShaped(q) && p + x == q + y
    ensures p == q && x == y
  {
    FirstUnderscore(p, x);
    FirstUnderscore(q, y);
    assert |p| == |q|;
    assert (p + x)[..|p|] == p && (q + y)[..|q|] == q;
    assert (p + x)[|p|..] == x && (q + y)[|q|..] == y;
  }

  lemma AliasParts(available: seq<string>, name: string, i: nat)
    requires |available| == POOL_SIZE
    ensures DynamicAlias(available, name, i) == available[i % POOL_SIZE] + (Head(name) + TwoDigits(i))
  {
  }

  lemma FromPool(available: seq<string>, k: nat)
    requires Shuffled(available) && k < |available|
    ensures available[k] in POOL
  {
    assert available[k] in multiset(available);
  }

  /** A dynamic alias spelt out: a prefix of the list, up to three bytes of the name
      and the position in decimal. */
  lemma DynamicAliasReads(available: seq<string>, name: string, i: nat)
    requires Shuffled(available)
    ensures available[i % 24] in [
      "analyze_", "compute_", "fetch_", "generate_", "lookup_", "modify_",
      "process_", "query_", "render_", "resolve_", "sync_", "update_",
      "validate_", "convert_", "extract_", "manage_", "monitor_", "parse_",
      "review_", "search_", "transform_", "handle_", "invoke_", "notify_"]
    ensures exists digits ::
      && DynamicAlias(available, name, i) == available[i % 24] + (if |name| < 3 then name else name[..3]) + digits
      && IsDigits(digits) && Number(digits) == i && |digits| >= 2 && (|digits| > 2 ==> digits[0] != '0')
  {
    hide TwoDigits, Number, IsDigits, DynamicAlias;
    FromPool(available, i % 24);
    TwoDigitsRead(i);
    ThreeParts(available, name, i);
  }

  lemma ThreeParts(available: seq<string>, name: string, i: nat)
    requires |available| == 24
    ensures DynamicAlias(available, name, i)
      == available[i % 24] + (if |name| < 3 then name else name[..3]) + TwoDigits(i)
  {
    assert name[..|name|] == name;
  }

  /** When two dynamic aliases are the same text, exactly. */
  lemma DynamicAliasCollision(available: seq<string>, n1: string, i: nat, n2: string, j: nat)
    requires Arrangement(available)
    ensures DynamicAlias(available, n1, i) == DynamicAlias(available, n2, j)
            <==> i % 24 == j % 24 && Head(n1) + TwoDigits(i) == Head(n2) + TwoDigits(j)
  {
    AliasParts(available, n1, i);
    AliasParts(available, n2, j);
    var a1, a2 := DynamicAlias(available, n1, i), DynamicAlias(available, n2, j);
    if a1 == a2 {
      PrefixCode(available[i % 24], Head(n1) + TwoDigits(i), available[j % 24], Head(n2) + TwoDigits(j));
    }
  }

  lemma NotInPool(k: nat)
    requires k < |POOL|
    ensures POOL[k] != "mcp_" && PoolShaped(POOL[k])
  {
    if k < 8 { FirstPoolEntries(k); } else if k < 16 { MiddlePoolEntries(k); } else { LastPoolEntries(k); }
    assert POOL[16] != "mcp_";
  }

  /** Nor is a dynamic alias ever refused. */
  lemma NoDynamicAliasRefused(available: seq<string>, name: string, i: nat)
    requires Shuffled(available)
    ensures !Refused(DynamicAlias(available, name, i))
  {
    hide POOL, Refused, PoolShaped, DynamicAlias;
    var p, rest := available[i % 24], Head(name) + TwoDigits(i);
    FromPool(available, i % 24);
    var k :| 0 <= k < |POOL| && POOL[k] == p;
    NotInPool(k);
    AliasParts(available, name, i);
    NotRefusedAfter(p, rest);
  }

  lemma NotRefusedAfter(p: string, rest: string)
    requires PoolShaped(p) && p != "mcp_"
    ensures !Refused(p + rest)
  {
    FirstUnderscore(p, rest);
    assert |p| == 4 ==> p == [p[0], p[1], p[2], p[3]];
  }

  lemma EndsInDigits(x: string, i: nat)
    ensures var s := x + TwoDigits(i);
            |s| >= 2 && s[|s| - 2] == Digit(i / 10 % 10) && s[|s| - 1] == Digit(i % 10)
  {
    LastTwoDigits(i);
  }

  lemma SuffixDigits(x: string, i: nat, y: string, j: nat)
    requires x + TwoDigits(i) == y + TwoDigits(j)
    ensures i % 100 == j % 100
  {
    EndsInDigits(x, i);
    EndsInDigits(y, j);
    DigitInjective(i % 10, j % 10);
    DigitInjective(i / 10 % 10, j / 10 % 10);
    TwoDigitRemainder(i);
    TwoDigitRemainder(j);
  }

  lemma TwoDigitRemainder(i: nat)
    ensures i % 100 == 10 * (i / 10 % 10) + i % 10
  {
  }

  /** 600 is the least common multiple of 24 prefixes and 100 two-digit endings. */
  lemma CommonMultiple(i: nat, j: nat)
    requires i % 24 == j % 24 && i % 100 == j % 100
    ensures i % 600 == j % 600
  {
    var a, b := i / 24 - j / 24, i / 100 - j / 100;
    assert i - j == 24 * a;
    assert i - j == 100 * b;
    Congruent(i, j, a - 4 * b);
  }

  lemma Congruent(i: nat, j: nat, c: int)
    requires i - j == 600 * c
    ensures i % 600 == j % 600
  {
  }

  /** Equal aliases come from positions a multiple of 600 apart. */
  lemma CollisionDistance(available: seq<string>, n1: string, i: nat, n2: string, j: nat)
    requires Arrangement(available)
    requires DynamicAlias(available, n1, i) == DynamicAlias(available, n2, j)
    ensures i % 600 == j % 600
    ensures i == j ==> Head(n1) == Head(n2)
  {
    DynamicAliasCollision(available, n1, i, n2, j);
    SuffixDigits(Head(n1), i, Head(n2), j);
    CommonMultiple(i, j);
    if i == j {
      SameEnding(Head(n1), Head(n2), TwoDigits(i));
    }
  }

  lemma SameEnding(x: string, y: string, t: string)
    requires x + t == y + t
    ensures x == y
  {
    assert |x| == |y|;
    assert (x + t)[..|x|] == x && (y + t)[..|y|] == y;
  }
}
