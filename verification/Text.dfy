/** Byte strings and the few library operations on them that the program uses.

    A byte is a `char` whose code is the byte's value.  Every statement below is
    about all strings of `char`, so it covers every string of bytes. */
module Text {

  datatype Option<+T> = None | Some(value: T)

  /** `pat` occurs in `s` at offset `k`. */
  predicate OccursAt(s: string, k: nat, pat: string) {
    k + |pat| <= |s| && s[k..k + |pat|] == pat
  }

  /** The search behind bytes.Index: the first occurrence at or after `i`. */
  function IndexFrom(s: string, pat: string, i: nat): (r: Option<nat>)
    requires i <= |s|
    ensures r.Some? ==> i <= r.value && OccursAt(s, r.value, pat)
    ensures r.Some? ==> forall k :: i <= k < r.value ==> !OccursAt(s, k, pat)
    ensures r.None? ==> forall k :: i <= k <= |s| ==> !OccursAt(s, k, pat)
    decreases |s| - i
  {
    if OccursAt(s, i, pat) then Some(i)
    else if i == |s| then None
    else IndexFrom(s, pat, i + 1)
  }

  /** bytes.Contains */
  predicate Contains(s: string, pat: string) {
    IndexFrom(s, pat, 0).Some?
  }

  /** strings.ReplaceAll for a non-empty pattern: leftmost, non-overlapping. */
  function ReplaceAll(s: string, pat: string, to: string): string
    requires pat != ""
  {
    if s == "" then ""
    else if pat <= s then to + ReplaceAll(s[|pat|..], pat, to)
    else [s[0]] + ReplaceAll(s[1..], pat, to)
  }

  function Concat(pieces: seq<string>): string {
    if pieces == [] then "" else pieces[0] + Concat(pieces[1..])
  }

  function MapSeq<S, T>(s: seq<S>, f: S -> T): (r: seq<T>)
    ensures |r| == |s| && forall k :: 0 <= k < |s| ==> r[k] == f(s[k])
  {
    seq(|s|, k requires 0 <= k < |s| => f(s[k]))
  }

  // ---------- characters, listed ----------

  const UPPER := "ABCDEFGHIJKLMNOPQRSTUVWXYZ"
  const LOWER := "abcdefghijklmnopqrstuvwxyz"
  const DIGITS := "0123456789"

  /** A run of consecutive characters holds those between its ends. */
  lemma InRun(s: string, first: char, c: char)
    requires s != "" && first as int + |s| <= 0xd800
    requires forall k :: 0 <= k < |s| ==> s[k] as int == first as int + k
    ensures c in s <==> first as int <= c as int < first as int + |s|
  {
    if first as int <= c as int < first as int + |s| {
      assert s[c as int - first as int] == c;
    }
  }

  lemma InUpper(c: char)
    ensures c in UPPER <==> 'A' <= c <= 'Z'
  {
    InRun(UPPER, 'A', c);
  }

  lemma InLower(c: char)
    ensures c in LOWER <==> 'a' <= c <= 'z'
  {
    InRun(LOWER, 'a', c);
  }

  lemma InDigits(c: char)
    ensures c in DIGITS <==> '0' <= c <= '9'
  {
    InRun(DIGITS, '0', c);
  }

  lemma InJoined(a: string, b: string, c: char)
    ensures c in a + b <==> c in a || c in b
  {
  }
}
