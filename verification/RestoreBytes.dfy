/** The loop that restores tool names in a response body or stream chunk. */
module RestoreBytes {
  import opened Text
  import opened Identifiers
  import opened ToolNames
  import opened RewriteMap
  import opened RoundTrip
  import opened StaticFallback

  lemma {:induction false} ReplaceAllSame(s: string, pat: string)
    requires pat != ""
    ensures ReplaceAll(s, pat, pat) == s
  {
    if s != "" {
      if pat <= s {
        ReplaceAllSame(s[|pat|..], pat);
      } else {
        ReplaceAllSame(s[1..], pat);
      }
    }
  }

  lemma PrefixOccurs(s: string, k: nat, pat: string)
    requires k <= |s|
    ensures pat <= s[k..] <==> OccursAt(s, k, pat)
  {
  }

  lemma {:induction false} ReplaceAllAbsent(s: string, k: nat, pat: string, to: string)
    requires pat != "" && k <= |s| && forall j :: k <= j <= |s| ==> !OccursAt(s, j, pat)
    ensures ReplaceAll(s[k..], pat, to) == s[k..]
    decreases |s| - k
  {
    if k < |s| {
      PrefixOccurs(s, k, pat);
      ReplaceAllAbsent(s, k + 1, pat, to);
      assert s[k..][1..] == s[k + 1..];
    }
  }

  method ReplaceAllBytes(data: string, from: string, to: string) returns (r: string)
    requires from != ""
    ensures r == ReplaceAll(data, from, to)
  {
    if |data| == 0 || from == to || !Contains(data, from) {
      if from == to {
        ReplaceAllSame(data, from);
      } else if !Contains(data, from) {
        ReplaceAllAbsent(data, 0, from, to);
        assert data[0..] == data;
      }
      return data;
    }
    return ReplaceAll(data, from, to);
  }

  lemma {:induction false} RestoreNothing(pairs: seq<(string, string)>)
    ensures RestoreInTurn("", pairs) == ""
    decreases |pairs|
  {
    if pairs != [] {
      RestoreNothing(pairs[1..]);
    }
  }

  lemma {:induction false} RestoreNonEmpty(data: string, pairs: seq<(string, string)>)
    requires data != "" && forall k :: 0 <= k < |pairs| ==> pairs[k].1 != ""
    ensures RestoreInTurn(data, pairs) != ""
    decreases |pairs|
  {
    if pairs != [] {
      RestoreNonEmpty(RestorePair(data, pairs[0]), pairs[1..]);
    }
  }

  /** With a map, its pairs in turn; without one, the static rules in range order. */
  method RestoreToolNamesInBytes(input: string, rw: Option<Rewrite>, rules: seq<StaticRule>) returns (data: string)
    requires RangeOrder(rules)
    requires rw.Some? ==> forall k :: 0 <= k < |rw.value.reverseOrdered| ==> rw.value.reverseOrdered[k].1 != ""
    ensures rw.Some? ==> data == RestoreInTurn(input, rw.value.reverseOrdered)
    ensures rw.None? ==> data == UndoTogether(input, {Sessions, Session, Mcp})
  {
    data := input;
    if |data| == 0 {
      if rw.Some? {
        RestoreNothing(rw.value.reverseOrdered);
      }
      return;
    }
    if rw.Some? {
      var pairs := rw.value.reverseOrdered;
      for k := 0 to |pairs|
        invariant RestoreInTurn(input, pairs) == RestoreInTurn(data, pairs[k..])
      {
        assert pairs[k..][1..] == pairs[k + 1..];
        data := ReplaceWholeNames(data, pairs[k].0, pairs[k].1);
      }
      return;
    }
    FallbackAnyOrder(input, rules);
    for k := 0 to |rules|
      invariant UndoInTurn(input, rules) == UndoInTurn(data, rules[k..])
    {
      assert rules[k..][1..] == rules[k + 1..];
      data := ReplaceAllBytes(data, rules[k].Replacement(), rules[k].Prefix());
    }
  }
}
