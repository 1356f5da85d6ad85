/** Extracting a template literal with `${...}` holes from a text, each hole shown as
    "<>", and the version string embedded in one of the holes. */
module UaTemplate {
  import opened Text

  const ANCHOR := "return`claude-cli/"

  // ---------- the version pattern: VERSION:"1.2.3" ----------

  function Digits(s: string): (n: nat)
    ensures n <= |s|
    ensures forall k :: 0 <= k < n ==> '0' <= s[k] <= '9'
    ensures n < |s| ==> !('0' <= s[n] <= '9')
  {
    if s != "" && '0' <= s[0] <= '9' then 1 + Digits(s[1..]) else 0
  }

  /** One or more digits and then `stop`; the length matched, or 0. */
  function Number(s: string, stop: char): (n: nat)
    ensures n <= |s|
  {
    var d := Digits(s);
    if d > 0 && d < |s| && s[d] == stop then d + 1 else 0
  }

  /** Length of `1.2.3"` at the start of `t`, or 0. */
  function VersionLength(t: string): (n: nat)
    ensures n <= |t|
  {
    var a := Number(t, '.');
    var b := if a > 0 then Number(t[a..], '.') else 0;
    var c := if b > 0 then Number(t[a + b..], '"') else 0;
    if c > 0 then a + b + c else 0
  }

  /** The pattern matched at the start of `s`, and what its group captures. */
  function MatchVersion(s: string): Option<string> {
    if "VERSION:\"" <= s && VersionLength(s[9..]) > 0 then Some(s[9..][..VersionLength(s[9..]) - 1]) else None
  }

  // ---------- the scan ----------

  datatype Scanned = Scanned(template: string, version: Option<string>)

  /** What the scan makes of `s`, `depth` braces inside a hole (0: outside). */
  function Scan(s: string, depth: nat): Scanned
    decreases |s|
  {
    if s == "" then Scanned("", None)
    else if depth == 0 then
      if s[0] == '`' then Scanned("", None)
      else if s[0] == '$' && |s| > 1 && s[1] == '{' then
        var r := Scan(s[2..], 1);
        Scanned("<>" + r.template, r.version)
      else
        var r := Scan(s[1..], 0);
        Scanned([s[0]] + r.template, r.version)
    else if s[0] == '{' then Scan(s[1..], depth + 1)
    else if s[0] == '}' then Scan(s[1..], depth - 1)
    else
      var r := Scan(s[1..], depth);
      if MatchVersion(s).Some? then Scanned(r.template, MatchVersion(s)) else r
  }

  function Result(r: Scanned): (Option<string>, Option<string>) {
    if r.template == "" then (None, None) else (Some("claude-cli/" + r.template), r.version)
  }

  function Found(text: string, anchor: string): (Option<string>, Option<string>) {
    match IndexFrom(text, anchor, 0)
    case None => (None, None)
    case Some(start) => Result(Scan(text[start + |anchor|..], 0))
  }

  method ExtractUaTemplate(text: string) returns (template: Option<string>, version: Option<string>)
    ensures (template, version) == Found(text, ANCHOR)
  {
    hide Scan;
    var start := IndexFrom(text, ANCHOR, 0);
    if start.None? {
      return None, None;
    }
    var out, v := ScanFrom(text, start.value + |ANCHOR|);
    if out == "" {
      return None, None;
    }
    return Some("claude-cli/" + out), v;
  }

  /** One step of the loop, on the text still to be read. */
  lemma ScanStep(text: string, i: nat, depth: nat)
    requires i < |text|
    ensures var here, next := Scan(text[i..], depth), i + 1;
      && (depth == 0 && text[i] == '`' ==> here == Scanned("", None))
      && (depth == 0 && text[i] == '$' && next < |text| && text[next] == '{' ==>
            here == Scanned("<>" + Scan(text[i + 2..], 1).template, Scan(text[i + 2..], 1).version))
      && (depth == 0 && text[i] != '`' && !(text[i] == '$' && next < |text| && text[next] == '{') ==>
            here == Scanned([text[i]] + Scan(text[next..], 0).template, Scan(text[next..], 0).version))
      && (depth > 0 && text[i] == '{' ==> here == Scan(text[next..], depth + 1))
      && (depth > 0 && text[i] == '}' ==> here == Scan(text[next..], depth - 1))
      && (depth > 0 && text[i] != '{' && text[i] != '}' ==>
            here == Scanned(Scan(text[next..], depth).template,
                            if MatchVersion(text[i..]).Some? then MatchVersion(text[i..]) else Scan(text[next..], depth).version))
  {
  }

  /** The loop over `i`, `depth`, `in_hole`, `version` and the output. */
  method ScanFrom(text: string, begin: nat) returns (out: string, version: Option<string>)
    requires begin <= |text|
    ensures Scanned(out, version) == Scan(text[begin..], 0)
  {
    hide Scan, MatchVersion;
    ghost var goal := Scan(text[begin..], 0);
    var i: nat := begin;
    out := "";
    version := None;
    var inHole := false;
    var depth: nat := 0;
    while i < |text|
      invariant i <= |text| && inHole == (depth > 0)
      invariant goal.template == out + Scan(text[i..], depth).template
      invariant goal.version == if version.Some? then version else Scan(text[i..], depth).version
      decreases |text| - i
    {
      ScanStep(text, i, depth);
      var ch := text[i];
      if !inHole {
        if ch == '`' {
          assert out + "" == out;
          return;
        }
        if ch == '$' && i + 1 < |text| && text[i + 1] == '{' {
          out := out + "<>";
          inHole := true;
          depth := 1;
          i := i + 2;
          continue;
        }
        out := out + [ch];
      } else if ch == '{' {
        depth := depth + 1;
      } else if ch == '}' {
        depth := depth - 1;
        if depth == 0 {
          inHole := false;
        }
      } else if version.None? {
        version := MatchVersion(text[i..]);
      }
      i := i + 1;
    }
    assert text[i..] == "" && out + "" == out;
    ScanEnd(depth);
  }

  lemma ScanEnd(depth: nat)
    ensures Scan("", depth) == Scanned("", None)
  {
  }

  // ---------- templates ----------

  datatype Fragment = Literal(c: char) | Hole(body: string)

  /** A hole's text: its braces balance, `depth - 1` of them still open. */
  predicate Balanced(body: string, depth: nat) {
    if body == "" then depth == 1
    else if body[0] == '{' then Balanced(body[1..], depth + 1)
    else if body[0] == '}' then depth > 1 && Balanced(body[1..], depth - 1)
    else Balanced(body[1..], depth)
  }

  /** No backtick, no literal "${", balanced holes. */
  predicate IsTemplate(f: seq<Fragment>) {
    f != [] ==>
      && IsTemplate(f[1..])
      && match f[0]
         case Literal(c) => c != '`' && (c == '$' && |f| > 1 ==> f[1] != Literal('{'))
         case Hole(body) => Balanced(body, 1)
  }

  function PrintOne(x: Fragment): string {
    match x
    case Literal(c) => [c]
    case Hole(body) => "${" + body + "}"
  }

  function Print(f: seq<Fragment>): string {
    if f == [] then "" else PrintOne(f[0]) + Print(f[1..])
  }

  function Show(f: seq<Fragment>): string {
    if f == [] then "" else (match f[0] case Literal(c) => [c] case Hole(_) => "<>") + Show(f[1..])
  }

  /** The first version inside a hole, braces aside. */
  function HoleVersion(body: string): Option<string> {
    if body == "" then None
    else if body[0] != '{' && body[0] != '}' && MatchVersion(body).Some? then MatchVersion(body)
    else HoleVersion(body[1..])
  }

  function FirstVersion(f: seq<Fragment>): Option<string> {
    if f == [] then None
    else if f[0].Hole? && HoleVersion(f[0].body).Some? then HoleVersion(f[0].body)
    else FirstVersion(f[1..])
  }

  // ---------- parser against printer ----------

  lemma {:induction false} DigitsStop(body: string, rest: string)
    ensures Digits(body + ("}" + rest)) == Digits(body)
  {
    var s := body + ("}" + rest);
    if body != "" && '0' <= body[0] <= '9' {
      assert s[1..] == body[1..] + ("}" + rest);
      DigitsStop(body[1..], rest);
    } else if body == "" {
      assert s[0] == '}';
    }
  }

  lemma NumberStops(body: string, rest: string, stop: char)
    requires stop != '}'
    ensures Number(body + ("}" + rest), stop) == Number(body, stop)
  {
    DigitsStop(body, rest);
  }

  lemma VersionStops(t: string, rest: string)
    ensures VersionLength(t + ("}" + rest)) == VersionLength(t)
  {
    hide Number;
    var e := "}" + rest;
    NumberStops(t, rest, '.');
    var a := Number(t, '.');
    if a > 0 {
      assert (t + e)[a..] == t[a..] + e;
      NumberStops(t[a..], rest, '.');
      var b := Number(t[a..], '.');
      if b > 0 {
        assert (t + e)[a + b..] == t[a + b..] + e;
        NumberStops(t[a + b..], rest, '"');
      }
    }
  }

  lemma PatternInside(p: string, body: string, rest: string)
    requires forall k :: 0 <= k < |p| ==> p[k] != '}'
    ensures p <= body + ("}" + rest) <==> p <= body
  {
    var s := body + ("}" + rest);
    assert s[|body|] == '}';
    if p <= s {
      assert |p| <= |body|;
      assert p == s[..|p|] == body[..|p|];
    }
  }

  /** A match cannot run over the brace that ends the hole. */
  lemma MatchInsideHole(body: string, rest: string)
    ensures MatchVersion(body + ("}" + rest)) == MatchVersion(body)
  {
    hide VersionLength;
    var s, e, p := body + ("}" + rest), "}" + rest, "VERSION:\"";
    PatternInside(p, body, rest);
    if p <= body {
      var t := body[9..];
      assert s[9..] == t + e;
      VersionStops(t, rest);
      var n := VersionLength(t);
      assert n > 0 ==> (t + e)[..n - 1] == t[..n - 1];
    }
  }

  /** Scanning over a balanced hole text comes out one brace before its end. */
  lemma {:induction false} ScanHole(body: string, rest: string, depth: nat)
    requires depth > 0 && Balanced(body, depth)
    ensures var after := Scan(rest, 0);
      Scan(body + ("}" + rest), depth)
      == Scanned(after.template, if HoleVersion(body).Some? then HoleVersion(body) else after.version)
    decreases |body|
  {
    hide MatchVersion;
    var s := body + ("}" + rest);
    if body == "" {
      assert s == "}" + rest && s[1..] == rest;
    } else {
      assert s[1..] == body[1..] + ("}" + rest);
      MatchInsideHole(body, rest);
      var next := if body[0] == '{' then depth + 1 else if body[0] == '}' then depth - 1 else depth;
      ScanHole(body[1..], rest, next);
    }
  }

  lemma ScanHoleFragment(body: string, tail: string)
    requires Balanced(body, 1)
    ensures var after := Scan(tail, 0);
      Scan("${" + body + "}" + tail, 0)
      == Scanned("<>" + after.template, if HoleVersion(body).Some? then HoleVersion(body) else after.version)
  {
    hide MatchVersion;
    var s := "${" + body + "}" + tail;
    assert s[0] == '$' && s[1] == '{' && s[2..] == body + ("}" + tail);
    ScanHole(body, tail, 1);
  }

  lemma ScanLiteralFragment(c: char, tail: string)
    requires c != '`' && !(c == '$' && tail != "" && tail[0] == '{')
    ensures Scan([c] + tail, 0) == Scanned([c] + Scan(tail, 0).template, Scan(tail, 0).version)
  {
  }

  /** Scanning a printed template gives back its literals, each hole as "<>", and the
      first version of its holes. */
  lemma {:induction false} ScanOfPrint(f: seq<Fragment>, post: string)
    requires IsTemplate(f)
    ensures Scan(Print(f) + ("`" + post), 0) == Scanned(Show(f), FirstVersion(f))
  {
    hide Scan, HoleVersion, Balanced;
    var e := "`" + post;
    if f == [] {
      assert Print(f) + e == e;
      ScanClosed(post);
    } else {
      ScanOfPrint(f[1..], post);
      var tail := Print(f[1..]) + e;
      PrintOfCons(f, e);
      match f[0]
      case Literal(c) =>
        NotAHole(f, e);
        ScanLiteralFragment(c, tail);
      case Hole(body) =>
        ScanHoleFragment(body, tail);
    }
  }

  lemma ScanClosed(post: string)
    ensures Scan("`" + post, 0) == Scanned("", None)
  {
  }

  lemma PrintOfCons(f: seq<Fragment>, e: string)
    requires f != []
    ensures Print(f) + e == PrintOne(f[0]) + (Print(f[1..]) + e)
  {
  }

  lemma NotAHole(f: seq<Fragment>, e: string)
    requires f != [] && IsTemplate(f) && f[0].Literal? && e != "" && e[0] == '`'
    ensures var tail := Print(f[1..]) + e; tail != "" && !(f[0].c == '$' && tail[0] == '{')
  {
  }

  /** The text around does not matter: the first anchor decides, and without one, as
      for an empty template, nothing is reported. */
  lemma TemplateFound(text: string, start: nat, f: seq<Fragment>, post: string)
    ensures !Contains(text, "return`claude-cli/") ==> Found(text, ANCHOR) == (None, None)
    ensures IsTemplate(f) && IndexFrom(text, "return`claude-cli/", 0) == Some(start)
            && text[start + 18..] == Print(f) + ("`" + post) ==>
      Found(text, ANCHOR) == if Show(f) == "" then (None, None) else (Some("claude-cli/" + Show(f)), FirstVersion(f))
  {
    hide Print, Scan, FirstVersion, IsTemplate, IndexFrom;
    if IsTemplate(f) {
      ScanOfPrint(f, post);
    }
  }

  // ---------- the version pattern ----------

  /** [0-9]+ */
  predicate Numeral(s: string) {
    s != "" && forall k :: 0 <= k < |s| ==> s[k] in "0123456789"
  }

  /** [0-9]+\.[0-9]+\.[0-9]+ */
  predicate IsVersion(v: string, a: string, b: string, c: string) {
    Numeral(a) && Numeral(b) && Numeral(c) && v == a + "." + b + "." + c
  }

  ghost predicate Version(v: string) {
    exists a, b, c :: IsVersion(v, a, b, c)
  }

  lemma {:induction false} DigitsOf(a: string, rest: string)
    requires forall k :: 0 <= k < |a| ==> '0' <= a[k] <= '9'
    requires rest == "" || !('0' <= rest[0] <= '9')
    ensures Digits(a + rest) == |a|
  {
    if a != "" {
      DigitsOf(a[1..], rest);
      assert (a + rest)[1..] == a[1..] + rest;
    } else {
      assert a + rest == rest;
    }
  }

  /** What is read as a number is a numeral and its stop. */
  lemma NumberRead(s: string, stop: char)
    requires Number(s, stop) > 0
    ensures var n := Number(s, stop);
      n >= 2 && Numeral(s[..n - 1]) && s[n - 1] == stop
  {
    hide Digits;
    forall k | 0 <= k < Digits(s) ensures s[k] in "0123456789" {
      InDigits(s[k]);
    }
  }

  /** And the other way round. */
  lemma NumberIsRead(s: string, a: string, mark: string)
    requires Numeral(a) && |mark| == 1 && (mark[0] == '.' || mark[0] == '"') && a + mark <= s
    ensures Number(s, mark[0]) == |a| + 1
  {
    hide Digits;
    forall k | 0 <= k < |a| ensures '0' <= a[k] <= '9' {
      InDigits(a[k]);
    }
    PrefixThen(a, mark, s);
    assert s == a + s[|a|..] && s[|a|..][0] == mark[0];
    DigitsOf(a, s[|a|..]);
  }

  lemma PrefixThen(x: string, y: string, t: string)
    requires x + y <= t
    ensures x <= t && y <= t[|x|..]
  {
    assert (x + y)[..|x|] == x && (x + y)[|x|..] == y;
  }

  lemma FiveParts(t: string, i: nat, j: nat, k: nat)
    requires 0 < i && 0 < j && 0 < k && i + j + k <= |t|
    requires t[i - 1] == '.' && t[i + j - 1] == '.'
    ensures t[..i + j + k - 1] == t[..i - 1] + "." + t[i..i + j - 1] + "." + t[i + j..i + j + k - 1]
  {
  }

  lemma NumberReadAt(t: string, i: nat, stop: char)
    requires i <= |t| && Number(t[i..], stop) > 0
    ensures var n := Number(t[i..], stop);
      n >= 2 && i + n <= |t| && Numeral(t[i..i + n - 1]) && t[i + n - 1] == stop
  {
    hide Numeral;
    NumberRead(t[i..], stop);
    assert t[i..][..Number(t[i..], stop) - 1] == t[i..i + Number(t[i..], stop) - 1];
  }

  lemma VersionRead(t: string)
    requires VersionLength(t) > 0
    ensures var n := VersionLength(t);
      t[n - 1] == '"' && Version(t[..n - 1])
  {
    hide Number, Numeral;
    assert t[0..] == t;
    var i := Number(t, '.');
    NumberReadAt(t, 0, '.');
    var j := Number(t[i..], '.');
    NumberReadAt(t, i, '.');
    var k := Number(t[i + j..], '"');
    NumberReadAt(t, i + j, '"');
    FiveParts(t, i, j, k);
    assert IsVersion(t[..i + j + k - 1], t[..i - 1], t[i..i + j - 1], t[i + j..i + j + k - 1]);
  }

  lemma Regrouped(a: string, b: string, c: string, d: string, e: string, f: string)
    ensures a + b + c + d + e + f == (a + b) + ((c + d) + (e + f))
  {
  }

  lemma VersionIsRead(t: string, v: string, a: string, b: string, c: string)
    requires IsVersion(v, a, b, c) && v + "\"" <= t
    ensures VersionLength(t) == |v| + 1
  {
    hide Number, Numeral;
    Regrouped(a, ".", b, ".", c, "\"");
    PrefixThen(a + ".", (b + ".") + (c + "\""), t);
    var t1 := t[|a| + 1..];
    PrefixThen(b + ".", c + "\"", t1);
    assert t1[|b| + 1..] == t[|a| + 1 + (|b| + 1)..];
    NumberIsRead(t, a, ".");
    NumberIsRead(t1, b, ".");
    NumberIsRead(t1[|b| + 1..], c, "\"");
  }

  /** The pattern VERSION:"([0-9]+\.[0-9]+\.[0-9]+)" at the start of a text, exactly. */
  lemma VersionExactly(s: string, v: string)
    ensures MatchVersion(s) == Some(v)
      <==> Version(v) && "VERSION:\"" + v + "\"" <= s
  {
    hide VersionLength, IsVersion;
    var p, t := "VERSION:\"", if |s| >= 9 then s[9..] else "";
    if MatchVersion(s) == Some(v) {
      VersionRead(t);
      assert s == p + t && t[..|v|] == v && t[|v|] == '"';
      assert p + v + "\"" == s[..|p| + |v| + 1];
    }
    if Version(v) && p + v + "\"" <= s {
      var a, b, c :| IsVersion(v, a, b, c);
      var w := p + v + "\"";
      assert w[..9] == p && w[9..] == v + "\"" && s[..9] == w[..9];
      assert w[9..] <= t;
      VersionIsRead(t, v, a, b, c);
      assert t[..|v|] == w[9..][..|v|] == v;
    }
  }

  // ---------- printer against parser ----------

  /** Length of the hole text before the brace that closes it, if it is closed. */
  function HoleLength(s: string, depth: nat): (n: Option<nat>)
    requires depth > 0
    ensures n.Some? ==> n.value < |s|
  {
    if s == "" then None
    else if s[0] == '}' && depth == 1 then Some(0)
    else
      var next := if s[0] == '{' then depth + 1 else if s[0] == '}' then depth - 1 else depth;
      var n := HoleLength(s[1..], next);
      if n.Some? then Some(n.value + 1) else None
  }

  /** The template a closed literal spells, and what follows its backtick. */
  function Parse(s: string): Option<(seq<Fragment>, string)>
    decreases |s|
  {
    if s == "" then None
    else if s[0] == '`' then Some(([], s[1..]))
    else if s[0] == '$' && |s| > 1 && s[1] == '{' then
      match HoleLength(s[2..], 1)
      case None => None
      case Some(n) =>
        match Parse(s[n + 3..])
        case None => None
        case Some((f, post)) => Some(([Hole(s[2..n + 2])] + f, post))
    else
      match Parse(s[1..])
      case None => None
      case Some((f, post)) => Some(([Literal(s[0])] + f, post))
  }

  lemma {:induction false} HoleLengthBalanced(s: string, depth: nat)
    requires depth > 0 && HoleLength(s, depth).Some?
    ensures var n := HoleLength(s, depth).value; Balanced(s[..n], depth) && s[n] == '}'
    decreases |s|
  {
    if !(s[0] == '}' && depth == 1) {
      var next := if s[0] == '{' then depth + 1 else if s[0] == '}' then depth - 1 else depth;
      HoleLengthBalanced(s[1..], next);
      var n := HoleLength(s, depth).value;
      assert s[..n][1..] == s[1..][..n - 1];
    }
  }

  /** Every closed literal is the print of a template: the scan misreads none. */
  lemma {:induction false} PrintOfParse(s: string)
    requires Parse(s).Some?
    ensures var (f, post) := Parse(s).value;
      IsTemplate(f) && s == Print(f) + ("`" + post) && Scan(s, 0) == Scanned(Show(f), FirstVersion(f))
    decreases |s|
  {
    var (f, post) := Parse(s).value;
    ParsedIsTemplate(s);
    ScanOfPrint(f, post);
  }

  lemma {:induction false} ParsedIsTemplate(s: string)
    requires Parse(s).Some?
    ensures var (f, post) := Parse(s).value; IsTemplate(f) && s == Print(f) + ("`" + post)
    decreases |s|
  {
    hide Balanced, HoleLength;
    if s[0] == '`' {
      assert s == "" + ("`" + s[1..]);
    } else if s[0] == '$' && |s| > 1 && s[1] == '{' {
      var n := HoleLength(s[2..], 1).value;
      ParsedIsTemplate(s[n + 3..]);
      var (g, post) := Parse(s[n + 3..]).value;
      HoleLengthBalanced(s[2..], 1);
      assert s[2..][..n] == s[2..n + 2] && s[2..][n] == s[n + 2];
      PrintHole(s, n, g, post);
    } else {
      ParsedIsTemplate(s[1..]);
      var (g, post) := Parse(s[1..]).value;
      PrintLiteral(s, g, post);
    }
  }

  lemma PrintHole(s: string, n: nat, g: seq<Fragment>, post: string)
    requires n + 3 <= |s| && s[0] == '$' && s[1] == '{' && s[n + 2] == '}' && Balanced(s[2..n + 2], 1)
    requires IsTemplate(g) && s[n + 3..] == Print(g) + ("`" + post)
    ensures var f := [Hole(s[2..n + 2])] + g; IsTemplate(f) && s == Print(f) + ("`" + post)
  {
    hide Balanced, Print;
    var f := [Hole(s[2..n + 2])] + g;
    assert f[0] == Hole(s[2..n + 2]) && f[1..] == g;
    AroundHole(s, n);
    PrintOfCons(f, "`" + post);
  }

  lemma AroundHole(s: string, n: nat)
    requires n + 3 <= |s| && s[0] == '$' && s[1] == '{' && s[n + 2] == '}'
    ensures s == "${" + s[2..n + 2] + "}" + s[n + 3..]
  {
  }

  lemma PrintLiteral(s: string, g: seq<Fragment>, post: string)
    requires s != "" && s[0] != '`' && !(s[0] == '$' && |s| > 1 && s[1] == '{')
    requires IsTemplate(g) && s[1..] == Print(g) + ("`" + post)
    ensures var f := [Literal(s[0])] + g; IsTemplate(f) && s == Print(f) + ("`" + post)
  {
  }
}
