/** Restoring a response for which no map is known: the three static aliases are
    replaced one after the other, in the order the Go map is ranged over. */
module StaticFallback {
  import opened Text
  import opened ToolNames

  /** One rule, as ReplaceAllBytes does it. */
  function UndoRule(data: string, r: StaticRule): string {
    ReplaceAll(data, r.Replacement(), r.Prefix())
  }

  function UndoInTurn(data: string, rules: seq<StaticRule>): string
    decreases |rules|
  {
    if rules == [] then data else UndoInTurn(UndoRule(data, rules[0]), rules[1..])
  }

  /** The reference: one scan that undoes every rule of `rules` where it stands. */
  function UndoTogether(data: string, rules: set<StaticRule>): string {
    if data == "" then ""
    else if Sessions in rules && "cc_sess_" <= data then "sessions_" + UndoTogether(data[8..], rules)
    else if Session in rules && "cc_ses_" <= data then "session_" + UndoTogether(data[7..], rules)
    else if Mcp in rules && "cc_mcp_" <= data then "mcp_" + UndoTogether(data[7..], rules)
    else [data[0]] + UndoTogether(data[1..], rules)
  }

  predicate NoneHere(data: string, rules: set<StaticRule>) {
    forall q: StaticRule :: q in rules ==> !(q.Replacement() <= data)
  }

  lemma UndoHere(data: string, rules: set<StaticRule>, q: StaticRule)
    requires q in rules && q.Replacement() <= data
    ensures UndoTogether(data, rules) == q.Prefix() + UndoTogether(data[|q.Replacement()|..], rules)
  {
    RulesExclusive(q, Sessions, data);
    RulesExclusive(q, Session, data);
    RulesExclusive(q, Mcp, data);
  }

  lemma UndoNothingHere(data: string, rules: set<StaticRule>)
    requires data != "" && NoneHere(data, rules)
    ensures UndoTogether(data, rules) == [data[0]] + UndoTogether(data[1..], rules)
  {
  }

  /** `u` cannot be read across the start of `v`: they differ where both are defined. */
  predicate Clash(u: string, v: string) {
    exists k :: 0 <= k < |u| && k < |v| && u[k] != v[k]
  }

  /** No restored prefix can supply part of another rule's alias. */
  lemma NoCreation(p: StaticRule, q: StaticRule, k: nat)
    requires p != q && k < |p.Replacement()|
    ensures Clash(p.Replacement()[k..], q.Prefix())
  {
    var u, v := p.Replacement()[k..], q.Prefix();
    assert u[0] == p.Replacement()[k];
    if u[0] == v[0] {
      assert p.Replacement()[k + 1] == u[1];
      if u[1] == v[1] {
        assert p.Replacement()[k + 2] == u[2];
        assert p.Replacement()[k + 3] == u[3];
        if u[3] == v[3] {
          assert p.Replacement()[k + 4] == u[4];
        }
      }
    }
  }

  /** No alias starts inside a restored prefix or inside another alias. */
  lemma NoOverlap(p: StaticRule, q: StaticRule)
    ensures forall k :: 0 <= k < |q.Prefix()| ==> Clash(q.Prefix()[k..], p.Replacement())
    ensures p != q ==> forall k :: 0 <= k < |p.Replacement()| ==> Clash(p.Replacement()[k..], q.Replacement())
  {
    forall k | 0 <= k < |q.Prefix()| ensures Clash(q.Prefix()[k..], p.Replacement()) {
      assert q.Prefix()[k..][0] == q.Prefix()[k];
      if q.Prefix()[k] == 'c' {
        assert q.Prefix()[k..][1] == q.Prefix()[k + 1];
      }
    }
    if p != q {
      forall k | 0 <= k < |p.Replacement()| ensures Clash(p.Replacement()[k..], q.Replacement()) {
        AliasOverlap(p, q, k);
      }
    }
  }

  lemma AliasOverlap(p: StaticRule, q: StaticRule, k: nat)
    requires p != q && k < |p.Replacement()|
    ensures Clash(p.Replacement()[k..], q.Replacement())
  {
    var u, v := p.Replacement()[k..], q.Replacement();
    if k == 0 {
      assert u == p.Replacement();
      assert u[3] != v[3] || u[6] != v[6];
    } else {
      assert u[0] == p.Replacement()[k];
      if u[0] == 'c' {
        assert u[1] == p.Replacement()[k + 1];
      }
    }
  }

  lemma ClashIsNotPrefix(u: string, t: string, pat: string)
    requires Clash(u, pat)
    ensures !(pat <= u + t)
  {
  }

  lemma {:induction false} ReplaceAllOver(u: string, t: string, pat: string, to: string)
    requires pat != "" && forall k :: 0 <= k < |u| ==> Clash(u[k..], pat)
    ensures ReplaceAll(u + t, pat, to) == u + ReplaceAll(t, pat, to)
  {
    if u == "" {
      assert u + t == t;
    } else {
      assert u[0..] == u;
      ClashIsNotPrefix(u, t, pat);
      assert (u + t)[1..] == u[1..] + t;
      assert forall k :: 0 <= k < |u| - 1 ==> u[1..][k..] == u[k + 1..];
      ReplaceAllOver(u[1..], t, pat, to);
    }
  }

  lemma {:induction false} UndoOver(u: string, t: string, rules: set<StaticRule>)
    requires forall k, q: StaticRule :: 0 <= k < |u| && q in rules ==> Clash(u[k..], q.Replacement())
    ensures UndoTogether(u + t, rules) == u + UndoTogether(t, rules)
  {
    if u == "" {
      assert u + t == t;
    } else {
      assert u[0..] == u;
      forall q: StaticRule | q in rules ensures !(q.Replacement() <= u + t) {
        ClashIsNotPrefix(u, t, q.Replacement());
      }
      UndoNothingHere(u + t, rules);
      assert (u + t)[1..] == u[1..] + t;
      assert forall k :: 0 <= k < |u| - 1 ==> u[1..][k..] == u[k + 1..];
      UndoOver(u[1..], t, rules);
    }
  }

  /** An alias of a rule not yet undone was there from the start. */
  lemma {:induction false} NotCreated(data: string, rules: set<StaticRule>, p: StaticRule, k: nat)
    requires p !in rules && k <= |p.Replacement()|
    requires p.Replacement()[k..] <= UndoTogether(data, rules)
    ensures p.Replacement()[k..] <= data
    decreases |p.Replacement()| - k
  {
    var u := p.Replacement()[k..];
    if k == |p.Replacement()| || data == "" {
    } else if q: StaticRule :| q in rules && q.Replacement() <= data {
      UndoHere(data, rules, q);
      NoCreation(p, q, k);
      NotAcross(u, q.Prefix(), UndoTogether(data[|q.Replacement()|..], rules));
    } else {
      UndoNothingHere(data, rules);
      assert UndoTogether(data, rules)[0] == u[0] && UndoTogether(data, rules)[1..] == UndoTogether(data[1..], rules);
      assert u[1..] == p.Replacement()[k + 1..];
      NotCreated(data[1..], rules, p, k + 1);
      assert u == [data[0]] + u[1..];
    }
  }

  lemma NotAcross(u: string, v: string, t: string)
    requires Clash(u, v)
    ensures !(u <= v + t)
  {
  }

  lemma NothingToUndo(rules: set<StaticRule>)
    ensures UndoTogether("", rules) == ""
  {
  }

  /** Undoing one more rule afterwards is undoing it in the same scan. */
  lemma {:induction false} UndoOneMore(data: string, rules: set<StaticRule>, p: StaticRule)
    requires p !in rules
    ensures UndoRule(UndoTogether(data, rules), p) == UndoTogether(data, rules + {p})
    decreases |data|
  {
    hide UndoTogether;
    var all := rules + {p};
    if data == "" {
      NothingToUndo(rules);
      NothingToUndo(all);
    } else if q: StaticRule :| q in rules && q.Replacement() <= data {
      var rest := data[|q.Replacement()|..];
      UndoHere(data, rules, q);
      UndoHere(data, all, q);
      NoOverlap(p, q);
      ReplaceAllOver(q.Prefix(), UndoTogether(rest, rules), p.Replacement(), p.Prefix());
      UndoOneMore(rest, rules, p);
    } else if p.Replacement() <= data {
      var u, rest := p.Replacement(), data[|p.Replacement()|..];
      UndoHere(data, all, p);
      assert data == u + rest;
      forall q: StaticRule | q in rules ensures forall k :: 0 <= k < |u| ==> Clash(u[k..], q.Replacement()) {
        NoOverlap(p, q);
      }
      UndoOver(u, rest, rules);
      assert (u + UndoTogether(rest, rules))[|u|..] == UndoTogether(rest, rules);
      UndoOneMore(rest, rules, p);
    } else {
      UndoNothingHere(data, rules);
      UndoNothingHere(data, all);
      if p.Replacement() <= UndoTogether(data, rules) {
        assert p.Replacement()[0..] == p.Replacement();
        NotCreated(data, rules, p, 0);
      }
      assert UndoTogether(data, rules)[1..] == UndoTogether(data[1..], rules);
      UndoOneMore(data[1..], rules, p);
    }
  }

  lemma UndoNonEmpty(data: string, rules: set<StaticRule>)
    requires data != ""
    ensures UndoTogether(data, rules) != ""
  {
    if r: StaticRule :| r in rules && r.Replacement() <= data {
      UndoHere(data, rules, r);
    } else {
      UndoNothingHere(data, rules);
    }
  }

  lemma {:induction false} UndoNone(data: string)
    ensures UndoTogether(data, {}) == data
  {
    if data != "" {
      UndoNone(data[1..]);
    }
  }

  lemma {:induction false} UndoInTurnIsTogether(data: string, done: set<StaticRule>, rules: seq<StaticRule>)
    requires forall k :: 0 <= k < |rules| ==> rules[k] !in done
    requires forall j, k :: 0 <= j < k < |rules| ==> rules[j] != rules[k]
    ensures UndoInTurn(UndoTogether(data, done), rules) == UndoTogether(data, done + set r | r in rules)
    decreases |rules|
  {
    if rules == [] {
      assert done + (set r | r in rules) == done;
    } else {
      UndoOneMore(data, done, rules[0]);
      UndoInTurnIsTogether(data, done + {rules[0]}, rules[1..]);
      assert done + (set r | r in rules) == done + {rules[0]} + set r | r in rules[1..];
    }
  }

  /** All six orders of the three rules give the one-scan result, on any bytes. */
  lemma FallbackAnyOrder(data: string, rules: seq<StaticRule>)
    requires RangeOrder(rules)
    ensures UndoInTurn(data, rules) == UndoTogether(data, {Sessions, Session, Mcp})
  {
    UndoNone(data);
    assert rules == [rules[0], rules[1], rules[2]];
    UndoInTurnIsTogether(data, {}, rules);
    assert {} + (set r | r in rules) == {Sessions, Session, Mcp};
  }
}
