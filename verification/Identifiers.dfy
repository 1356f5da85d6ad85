/** Replacing whole identifiers in a byte string.

    `ReplaceWholeNames` is the scanner the program runs once per (alias, name)
    pair.  `Subst` is its partner: one simultaneous substitution on the maximal
    runs of identifier bytes. */
module Identifiers {
  import opened Text

  predicate IsNameByte(c: char) {
    c == '_' || c == '-' || 'a' <= c <= 'z' || 'A' <= c <= 'Z' || '0' <= c <= '9'
  }

  predicate NameBytes(s: string) {
    forall k :: 0 <= k < |s| ==> IsNameByte(s[k])
  }

  /** A name the program can recognise as one identifier. */
  predicate WellFormed(name: string) {
    name != "" && NameBytes(name)
  }

  // ---------- the simultaneous substitution ----------

  /** Length of the longest prefix of `s` made of name bytes. */
  function RunLength(s: string): (n: nat)
    ensures n <= |s|
    ensures forall k :: 0 <= k < n ==> IsNameByte(s[k])
    ensures n < |s| ==> !IsNameByte(s[n])
  {
    if s == "" || !IsNameByte(s[0]) then 0 else 1 + RunLength(s[1..])
  }

  function Lookup(m: map<string, string>, w: string): string {
    if w in m then m[w] else w
  }

  /** Every maximal run of name bytes that is a key of `m` becomes its value. */
  function Subst(s: string, m: map<string, string>): string
    decreases |s|
  {
    if s == "" then ""
    else if !IsNameByte(s[0]) then [s[0]] + Subst(s[1..], m)
    else
      var n := RunLength(s);
      Lookup(m, s[..n]) + Subst(s[n..], m)
  }

  /** The maximal runs of name bytes of `s`. */
  function Tokens(s: string): (ts: set<string>)
    ensures forall w :: w in ts ==> WellFormed(w)
    decreases |s|
  {
    if s == "" then {}
    else if !IsNameByte(s[0]) then Tokens(s[1..])
    else
      var n := RunLength(s);
      {s[..n]} + Tokens(s[n..])
  }

  /** No identifier runs across the border between `a` and `b`. */
  predicate CleanCut(a: string, b: string) {
    a == "" || b == "" || !IsNameByte(a[|a| - 1]) || !IsNameByte(b[0])
  }

  lemma RunLengthUnique(s: string, n: nat)
    requires n <= |s| && forall k :: 0 <= k < n ==> IsNameByte(s[k])
    requires n < |s| ==> !IsNameByte(s[n])
    ensures RunLength(s) == n
  {
  }

  /** The first run of `a` is still the first run of `a + b`. */
  lemma FirstRun(a: string, b: string)
    requires a != "" && IsNameByte(a[0]) && CleanCut(a, b)
    ensures var n := RunLength(a);
      && RunLength(a + b) == n && (a + b)[..n] == a[..n] && (a + b)[n..] == a[n..] + b && CleanCut(a[n..], b)
  {
    RunLengthUnique(a + b, RunLength(a));
  }

  /** Unfolding the substitution at a run. */
  lemma SubstRun(s: string, n: nat, m: map<string, string>)
    requires s != "" && IsNameByte(s[0]) && n == RunLength(s)
    ensures Subst(s, m) == Lookup(m, s[..n]) + Subst(s[n..], m)
  {
  }

  lemma SubstOfNothing(m: map<string, string>)
    ensures Subst("", m) == ""
  {
  }

  lemma SubstOther(s: string, m: map<string, string>)
    requires s != "" && !IsNameByte(s[0])
    ensures Subst(s, m) == [s[0]] + Subst(s[1..], m)
  {
  }

  lemma {:induction false} SubstSplit(a: string, b: string, m: map<string, string>)
    requires CleanCut(a, b)
    ensures Subst(a + b, m) == Subst(a, m) + Subst(b, m)
    decreases |a|
  {
    if a == "" {
      assert a + b == b;
    } else if !IsNameByte(a[0]) {
      assert (a + b)[1..] == a[1..] + b;
      SubstSplit(a[1..], b, m);
    } else {
      var n := RunLength(a);
      FirstRun(a, b);
      SubstSplitAtRun(a, b, n, m);
      SubstSplit(a[n..], b, m);
    }
  }

  lemma SubstSplitAtRun(a: string, b: string, n: nat, m: map<string, string>)
    requires a != "" && IsNameByte(a[0]) && n == RunLength(a)
    requires RunLength(a + b) == n && (a + b)[..n] == a[..n] && (a + b)[n..] == a[n..] + b
    ensures Subst(a[n..] + b, m) == Subst(a[n..], m) + Subst(b, m) ==> Subst(a + b, m) == Subst(a, m) + Subst(b, m)
  {
    hide Subst, Lookup, RunLength;
    SubstRun(a, n, m);
    SubstRun(a + b, n, m);
    var w, x, y := Lookup(m, a[..n]), Subst(a[n..], m), Subst(b, m);
    assert w + (x + y) == (w + x) + y;
  }

  lemma SubstWord(w: string, m: map<string, string>)
    requires WellFormed(w)
    ensures Subst(w, m) == Lookup(m, w)
  {
    assert w[..|w|] == w;
    RunLengthUnique(w, |w|);
  }

  /** What follows a run still begins with a non-name byte after substitution. */
  lemma SubstKeepsBorder(s: string, m: map<string, string>)
    requires s == "" || !IsNameByte(s[0])
    ensures Subst(s, m) == "" || !IsNameByte(Subst(s, m)[0])
  {
  }

  /** Two substitutions in a row are one, when the first puts names in the place of names. */
  lemma {:induction false} SubstCompose(s: string, m1: map<string, string>, m2: map<string, string>, m: map<string, string>)
    requires forall w :: w in Tokens(s) ==> WellFormed(Lookup(m1, w)) && Lookup(m2, Lookup(m1, w)) == Lookup(m, w)
    ensures Subst(Subst(s, m1), m2) == Subst(s, m)
    decreases |s|
  {
    if s == "" {
    } else if !IsNameByte(s[0]) {
      SubstCompose(s[1..], m1, m2, m);
      assert Subst(s, m1)[1..] == Subst(s[1..], m1);
    } else {
      var n := RunLength(s);
      assert s[..n] in Tokens(s);
      var w := Lookup(m1, s[..n]);
      SubstCompose(s[n..], m1, m2, m);
      SubstKeepsBorder(s[n..], m1);
      SubstSplit(w, Subst(s[n..], m1), m2);
      SubstWord(w, m2);
    }
  }

  lemma {:induction false} SubstIdentity(s: string, m: map<string, string>)
    requires forall w :: w in Tokens(s) ==> Lookup(m, w) == w
    ensures Subst(s, m) == s
    decreases |s|
  {
    hide Subst;
    if s == "" {
      SubstOfNothing(m);
    } else if !IsNameByte(s[0]) {
      SubstIdentity(s[1..], m);
      SubstOther(s, m);
      assert s == [s[0]] + s[1..];
    } else {
      var n := RunLength(s);
      assert s[..n] in Tokens(s);
      SubstIdentity(s[n..], m);
      SubstRun(s, n, m);
      assert s == s[..n] + s[n..];
    }
  }

  /** The identifiers of the result are the images of the identifiers of `s`. */
  lemma {:induction false} TokensOfSubst(s: string, m: map<string, string>)
    requires forall w :: w in Tokens(s) ==> WellFormed(Lookup(m, w))
    ensures Tokens(Subst(s, m)) == set w | w in Tokens(s) :: Lookup(m, w)
    decreases |s|
  {
    if s == "" {
    } else if !IsNameByte(s[0]) {
      TokensOfSubst(s[1..], m);
      assert Subst(s, m)[1..] == Subst(s[1..], m);
    } else {
      var n := RunLength(s);
      assert s[..n] in Tokens(s);
      var w, rest := Lookup(m, s[..n]), Subst(s[n..], m);
      TokensOfSubst(s[n..], m);
      SubstKeepsBorder(s[n..], m);
      assert (w + rest)[..|w|] == w;
      RunLengthUnique(w + rest, |w|);
      assert (w + rest)[|w|..] == rest;
    }
  }

  lemma SubstNonEmpty(s: string, m: map<string, string>)
    requires s != ""
    requires forall a :: a in m ==> m[a] != ""
    ensures Subst(s, m) != ""
  {
  }

  /** Restoring a list of chunks one by one restores their concatenation. */
  ghost predicate CleanCuts(chunks: seq<string>) {
    forall k :: 0 <= k < |chunks| ==> CleanCut(chunks[k], Concat(chunks[k + 1..]))
  }

  lemma {:induction false} SubstChunks(chunks: seq<string>, m: map<string, string>)
    requires CleanCuts(chunks)
    ensures Subst(Concat(chunks), m) == Concat(seq(|chunks|, k requires 0 <= k < |chunks| => Subst(chunks[k], m)))
  {
    var images := seq(|chunks|, k requires 0 <= k < |chunks| => Subst(chunks[k], m));
    if chunks != [] {
      var tail := chunks[1..];
      forall k | 0 <= k < |tail| ensures CleanCut(tail[k], Concat(tail[k + 1..])) {
        assert CleanCut(chunks[k + 1], Concat(chunks[k + 2..]));
        assert tail[k + 1..] == chunks[k + 2..];
      }
      SubstChunks(tail, m);
      assert images[1..] == seq(|tail|, k requires 0 <= k < |tail| => Subst(tail[k], m));
      assert CleanCut(chunks[0], Concat(chunks[1..]));
      SubstSplit(chunks[0], Concat(tail), m);
    }
  }

  // ---------- the scanner ----------

  /** `from` occurs at `k` with no name byte on either side. */
  predicate WholeAt(data: string, k: nat, from: string) {
    && OccursAt(data, k, from)
    && (k == 0 || !IsNameByte(data[k - 1]))
    && (k + |from| == |data| || !IsNameByte(data[k + |from|]))
  }

  /** Left-to-right replacement of the whole occurrences at or after `k`. */
  function ReplaceWhole(data: string, k: nat, from: string, to: string): string
    requires k <= |data| && from != ""
    decreases |data| - k
  {
    if k == |data| then ""
    else if WholeAt(data, k, from) then to + ReplaceWhole(data, k + |from|, from, to)
    else [data[k]] + ReplaceWhole(data, k + 1, from, to)
  }

  lemma SplitFirst(data: string, i: nat, j: nat, rest: string)
    requires i < j <= |data|
    ensures [data[i]] + (data[i + 1..j] + rest) == data[i..j] + rest
  {
  }

  lemma {:induction false} ReplaceWholeSkip(data: string, i: nat, j: nat, from: string, to: string)
    requires i <= j <= |data| && from != ""
    requires forall k :: i <= k < j ==> !WholeAt(data, k, from)
    ensures ReplaceWhole(data, i, from, to) == data[i..j] + ReplaceWhole(data, j, from, to)
    decreases j - i
  {
    if i < j {
      ReplaceWholeSkip(data, i + 1, j, from, to);
      assert !WholeAt(data, i, from);
      SplitFirst(data, i, j, ReplaceWhole(data, j, from, to));
    } else {
      assert data[i..j] == "";
    }
  }

  /** The early return is no more than a shortcut. */
  lemma ReplaceWholeShortcut(data: string, from: string, to: string)
    requires from != "" && (data == "" || from == to || !Contains(data, from))
    ensures ReplaceWhole(data, 0, from, to) == data
  {
    if from == to {
      ReplaceWholeSame(data, 0, from);
    } else if !Contains(data, from) {
      ReplaceWholeSkip(data, 0, |data|, from, to);
      assert data[0..|data|] + "" == data;
    }
  }

  /** What the loop knows: `out` holds the result up to `last`, and nothing was
      replaced between `last` and `i`. */
  ghost predicate Scanned(data: string, from: string, to: string, out: string, last: nat, i: nat)
    requires from != ""
  {
    && last <= i <= |data|
    && ReplaceWhole(data, 0, from, to) == out + (data[last..i] + ReplaceWhole(data, i, from, to))
  }

  lemma ScannedStart(data: string, from: string, to: string)
    requires from != ""
    ensures Scanned(data, from, to, "", 0, 0)
  {
  }

  lemma ScannedSkip(data: string, from: string, to: string, out: string, last: nat, i: nat, j: nat)
    requires from != "" && Scanned(data, from, to, out, last, i)
    requires i <= j <= |data| && forall k :: i <= k < j ==> !WholeAt(data, k, from)
    ensures Scanned(data, from, to, out, last, j)
  {
    ReplaceWholeSkip(data, i, j, from, to);
    var x, y, z := data[last..i], data[i..j], ReplaceWhole(data, j, from, to);
    assert x + y == data[last..j];
    assert x + (y + z) == (x + y) + z;
  }

  lemma ScannedTake(data: string, from: string, to: string, out: string, last: nat, i: nat)
    requires from != "" && Scanned(data, from, to, out, last, i)
    requires WholeAt(data, i, from)
    ensures Scanned(data, from, to, out + data[last..i] + to, i + |from|, i + |from|)
  {
  }

  lemma ScannedEnd(data: string, from: string, to: string, out: string, last: nat, i: nat)
    requires from != "" && Scanned(data, from, to, out, last, i)
    requires forall k :: i <= k <= |data| ==> !OccursAt(data, k, from)
    ensures ReplaceWhole(data, 0, from, to) == out + data[last..]
  {
    ScannedSkip(data, from, to, out, last, i, |data|);
    assert data[last..|data|] + "" == data[last..];
  }

  lemma NoneWhole(data: string, from: string, i: nat)
    requires forall k :: i <= k <= |data| ==> !OccursAt(data, k, from)
    ensures forall k :: i <= k <= |data| ==> !WholeAt(data, k, from)
  {
  }

  /** What one search of the loop finds. */
  lemma SearchResult(data: string, from: string, i: nat, start: nat)
    requires from != "" && i <= |data| && IndexFrom(data, from, i) == Some(start)
    ensures i <= start && start + |from| <= |data|
    ensures forall k :: i <= k < start ==> !WholeAt(data, k, from)
    ensures WholeAt(data, start, from) <==>
      (start == 0 || !IsNameByte(data[start - 1])) && (start + |from| == |data| || !IsNameByte(data[start + |from|]))
  {
  }

  /** Where the occurrences that stand back to back from `k` on end. */
  function Leading(data: string, k: nat, from: string): (n: nat)
    requires k <= |data| && from != ""
    ensures k <= n <= |data| && !WholeAt(data, n, from)
    decreases |data| - k
  {
    if WholeAt(data, k, from) then Leading(data, k + |from|, from) else k
  }

  /** Every whole occurrence belongs to the block the text begins with. */
  ghost predicate OnlyLeading(data: string, from: string)
    requires from != ""
  {
    forall k :: Leading(data, 0, from) <= k <= |data| ==> !WholeAt(data, k, from)
  }

  /** What the nil test at the end knows when the replacement is empty: nothing was
      written yet, or something before an occurrence behind the leading block. */
  ghost predicate Dropped(data: string, from: string, out: string, last: nat)
    requires from != ""
  {
    && last <= |data|
    && (out == "" ==> Leading(data, last, from) == Leading(data, 0, from))
    && (out != "" ==> !OnlyLeading(data, from))
  }

  lemma DroppedTake(data: string, from: string, out: string, last: nat, start: nat)
    requires from != "" && Dropped(data, from, out, last)
    requires last <= start && WholeAt(data, start, from) && forall k :: last <= k < start ==> !WholeAt(data, k, from)
    ensures Dropped(data, from, out + data[last..start], start + |from|)
  {
  }

  lemma DroppedEnd(data: string, from: string, out: string, last: nat)
    requires from != "" && Dropped(data, from, out, last)
    requires forall k :: last <= k <= |data| ==> !WholeAt(data, k, from)
    ensures OnlyLeading(data, from) <==> out == ""
  {
  }

  lemma DroppedStart(data: string, from: string)
    requires from != ""
    ensures Dropped(data, from, "", 0)
  {
  }

  /** The loop over `i`, `last` and `out`.  Go's nil slice is the empty one, so the
      final nil test also fires when everything written so far was empty: an empty
      replacement drops the occurrences unless all of them lead the text. */
  method ReplaceWholeNames(data: string, from: string, to: string) returns (r: string)
    ensures from == "" ==> r == data
    ensures from != "" ==>
      r == if to == "" && OnlyLeading(data, from) then data else ReplaceWhole(data, 0, from, to)
  {
    hide ReplaceWhole, Scanned, WholeAt, OccursAt, Dropped, OnlyLeading, Leading;
    if |data| == 0 || from == "" || from == to || !Contains(data, from) {
      if from != "" {
        ReplaceWholeShortcut(data, from, to);
      }
      return data;
    }
    var out := "";
    var last: nat, i: nat := 0, 0;
    ScannedStart(data, from, to);
    DroppedStart(data, from);
    while true
      invariant last <= i <= |data|
      invariant Scanned(data, from, to, out, last, i)
      invariant to != "" && out == "" ==> last == 0
      invariant to == "" ==> Dropped(data, from, out, last)
      invariant forall k :: last <= k < i ==> !WholeAt(data, k, from)
      decreases |data| - i
    {
      var j := IndexFrom(data, from, i);
      if j.None? {
        ScannedEnd(data, from, to, out, last, i);
        NoneWhole(data, from, i);
        if to == "" {
          DroppedEnd(data, from, out, last);
        }
        break;
      }
      var start, end := j.value, j.value + |from|;
      SearchResult(data, from, i, start);
      ScannedSkip(data, from, to, out, last, i, start);
      if (start == 0 || !IsNameByte(data[start - 1])) && (end == |data| || !IsNameByte(data[end])) {
        ScannedTake(data, from, to, out, last, start);
        if to == "" {
          DroppedTake(data, from, out, last, start);
          assert out + data[last..start] + to == out + data[last..start];
        }
        out := out + data[last..start];
        out := out + to;
        last := end;
        i := end;
        continue;
      }
      ScannedSkip(data, from, to, out, last, start, start + 1);
      i := start + 1;
    }
    if out == "" {
      return data;
    }
    return out + data[last..];
  }

  lemma {:induction false} ReplaceWholeSame(data: string, k: nat, from: string)
    requires k <= |data| && from != ""
    ensures ReplaceWhole(data, k, from, from) == data[k..]
    decreases |data| - k
  {
    if k < |data| {
      if WholeAt(data, k, from) {
        ReplaceWholeSame(data, k + |from|, from);
        assert data[k..] == from + data[k + |from|..];
      } else {
        ReplaceWholeSame(data, k + 1, from);
      }
    }
  }

  /** `data[k..k + n]` is a maximal run of name bytes, from a run border on. */
  ghost predicate MaximalRun(data: string, k: nat, n: nat) {
    && 0 < n && k + n <= |data|
    && (forall y :: k <= y < k + n ==> IsNameByte(data[y]))
    && (k > 0 ==> !IsNameByte(data[k - 1]))
    && (k + n < |data| ==> !IsNameByte(data[k + n]))
  }

  lemma ReplaceOther(data: string, k: nat, from: string, to: string)
    requires WellFormed(from) && k < |data| && !IsNameByte(data[k])
    ensures ReplaceWhole(data, k, from, to) == [data[k]] + ReplaceWhole(data, k + 1, from, to)
  {
  }

  /** A well-formed name is a whole identifier only where it is the entire run. */
  lemma WholeInRun(data: string, k: nat, n: nat, from: string, x: nat)
    requires MaximalRun(data, k, n) && WellFormed(from) && k <= x < k + n
    ensures WholeAt(data, x, from) <==> x == k && data[k..k + n] == from
  {
  }

  lemma ReplaceHere(data: string, k: nat, from: string, to: string)
    requires from != "" && WholeAt(data, k, from)
    ensures k + |from| <= |data| && ReplaceWhole(data, k, from, to) == to + ReplaceWhole(data, k + |from|, from, to)
  {
  }

  lemma ReplaceRun(data: string, k: nat, n: nat, from: string, to: string)
    requires MaximalRun(data, k, n) && WellFormed(from)
    ensures ReplaceWhole(data, k, from, to)
         == Lookup(map[from := to], data[k..k + n]) + ReplaceWhole(data, k + n, from, to)
  {
    hide ReplaceWhole, WholeAt, OccursAt;
    if data[k..k + n] == from {
      WholeInRun(data, k, n, from, k);
      ReplaceHere(data, k, from, to);
    } else {
      forall x | k <= x < k + n ensures !WholeAt(data, x, from) {
        WholeInRun(data, k, n, from, x);
      }
      ReplaceWholeSkip(data, k, k + n, from, to);
    }
  }

  lemma NothingLeft(data: string, from: string, to: string)
    requires from != ""
    ensures ReplaceWhole(data, |data|, from, to) == "" == Subst(data[|data|..], map[from := to])
  {
  }

  /** The run that begins at `k`. */
  lemma RunAt(data: string, k: nat, n: nat)
    requires k < |data| && IsNameByte(data[k]) && n == RunLength(data[k..])
    requires k > 0 ==> !IsNameByte(data[k - 1])
    ensures MaximalRun(data, k, n)
    ensures data[k..][..n] == data[k..k + n] && data[k..][n..] == data[k + n..]
  {
  }

  lemma RunEnds(data: string, k: nat, n: nat)
    requires MaximalRun(data, k, n)
    ensures k + n <= |data| && (k + n == |data| || !IsNameByte(data[k + n]))
  {
  }

  /** For a well-formed name, scanning is substitution on maximal runs. */
  lemma {:induction false} ReplaceWholeIsSubst(data: string, k: nat, from: string, to: string)
    requires k <= |data| && WellFormed(from)
    requires k == 0 || k == |data| || !IsNameByte(data[k - 1]) || !IsNameByte(data[k])
    ensures ReplaceWhole(data, k, from, to) == Subst(data[k..], map[from := to])
    decreases |data| - k
  {
    hide WholeAt, OccursAt, Lookup, MaximalRun, ReplaceWhole, Subst;
    if k == |data| {
      NothingLeft(data, from, to);
    } else if !IsNameByte(data[k]) {
      ReplaceOther(data, k, from, to);
      SubstOther(data[k..], map[from := to]);
      assert data[k..][1..] == data[k + 1..];
      ReplaceWholeIsSubst(data, k + 1, from, to);
    } else {
      var n := RunLength(data[k..]);
      RunAt(data, k, n);
      assert k + n <= |data| && (k + n == |data| || !IsNameByte(data[k + n])) by {
        RunEnds(data, k, n);
      }
      ReplaceRun(data, k, n, from, to);
      SubstRun(data[k..], n, map[from := to]);
      ReplaceWholeIsSubst(data, k + n, from, to);
    }
  }

  // ---------- which bytes these are ----------

  /** The 64 bytes, one by one. */
  const NAME_BYTES := UPPER + LOWER + DIGITS + "_-"

  /** Letters, digits, underscore and hyphen: the identifier bytes are the listed ones. */
  lemma NameBytesListed(c: char)
    ensures IsNameByte(c) <==> c in NAME_BYTES
  {
    InUpper(c);
    InLower(c);
    InDigits(c);
    InJoined(UPPER + LOWER + DIGITS, "_-", c);
    InJoined(UPPER + LOWER, DIGITS, c);
    InJoined(UPPER, LOWER, c);
  }

  lemma OneMoreByte(from: string, to: string, c: char)
    requires WellFormed(from) && to != from
    ensures ReplaceWhole(from + [c], 0, from, to) == if IsNameByte(c) then from + [c] else to + [c]
    ensures ReplaceWhole([c] + from, 0, from, to) == if IsNameByte(c) then [c] + from else [c] + to
  {
    hide Subst, ReplaceWhole;
    var m := map[from := to];
    var after, before := from + [c], [c] + from;
    ReplaceWholeIsSubst(after, 0, from, to);
    ReplaceWholeIsSubst(before, 0, from, to);
    assert after[0..] == after && before[0..] == before;
    if IsNameByte(c) {
      SubstWord(after, m);
      SubstWord(before, m);
    } else {
      SubstWord(from, m);
      SubstOther([c], m);
      SubstOfNothing(m);
      assert [c][1..] == "" && [c] + "" == [c];
      SubstSplit(from, [c], m);
      SubstSplit([c], from, m);
    }
  }

  lemma NameListed(name: string)
    requires name != "" && forall k :: 0 <= k < |name| ==> name[k] in NAME_BYTES
    ensures WellFormed(name)
  {
    hide NAME_BYTES;
    forall k | 0 <= k < |name| ensures IsNameByte(name[k]) {
      NameBytesListed(name[k]);
    }
  }

  /** A name followed by one more byte is another identifier if the byte is one of the
      64, and the name itself, to be replaced, if it is not. */
  lemma ReplaceBeforeByte(from: string, to: string, c: char)
    requires from != "" && to != from && forall k :: 0 <= k < |from| ==> from[k] in NAME_BYTES
    ensures ReplaceWhole(from + [c], 0, from, to)
      == if c in "ABCDEFGHIJKLMNOPQRSTUVWXYZ" + "abcdefghijklmnopqrstuvwxyz" + "0123456789" + "_-" then from + [c] else to + [c]
  {
    hide ReplaceWhole, IsNameByte, WellFormed;
    NameListed(from);
    NameBytesListed(c);
    OneMoreByte(from, to, c);
  }

  /** The same for a byte in front. */
  lemma ReplaceAfterByte(from: string, to: string, c: char)
    requires from != "" && to != from && forall k :: 0 <= k < |from| ==> from[k] in NAME_BYTES
    ensures ReplaceWhole([c] + from, 0, from, to)
      == if c in "ABCDEFGHIJKLMNOPQRSTUVWXYZ" + "abcdefghijklmnopqrstuvwxyz" + "0123456789" + "_-" then [c] + from else [c] + to
  {
    hide ReplaceWhole, IsNameByte, WellFormed;
    NameListed(from);
    NameBytesListed(c);
    OneMoreByte(from, to, c);
  }
}
