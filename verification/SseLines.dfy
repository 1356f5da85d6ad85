/** Restoring a server-sent-events transcript line by line: the JSON payload of each
    "data:" line is restored, everything around it stays. */
module SseLines {
  import opened Text

  /** Restores one JSON payload; anything else comes back as it is. */
  type JsonRestore = string -> string

  // ---------- lines ----------

  /** bytes.SplitAfter(body, "\n"): pieces keep their newline, the last one has none. */
  function SplitAfter(s: string): (pieces: seq<string>)
    ensures pieces != []
  {
    if s == "" then [""]
    else if s[0] == '\n' then ["\n"] + SplitAfter(s[1..])
    else
      var rest := SplitAfter(s[1..]);
      [[s[0]] + rest[0]] + rest[1..]
  }

  /** One piece: no newline but possibly the last byte. */
  predicate Piece(line: string) {
    forall k :: 0 <= k < |line| - 1 ==> line[k] != '\n'
  }

  predicate Ended(line: string) {
    line != "" && line[|line| - 1] == '\n'
  }

  /** `pieces` is a text cut after each newline and nowhere else. */
  ghost predicate Cut(pieces: seq<string>) {
    && pieces != []
    && (forall k :: 0 <= k < |pieces| ==> Piece(pieces[k]))
    && (forall k :: 0 <= k < |pieces| - 1 ==> Ended(pieces[k]))
    && !Ended(pieces[|pieces| - 1])
  }

  lemma {:induction false} SplitPieces(s: string)
    ensures Cut(SplitAfter(s))
  {
    hide Cut;
    if s == "" {
      CutEmpty();
    } else {
      var rest := SplitAfter(s[1..]);
      SplitPieces(s[1..]);
      if s[0] == '\n' {
        CutCons("\n", rest);
      } else {
        CutExtend(s[0], rest);
      }
    }
  }

  lemma CutEmpty()
    ensures Cut([""])
  {
  }

  lemma CutCons(line: string, rest: seq<string>)
    requires Cut(rest) && Piece(line) && Ended(line)
    ensures Cut([line] + rest)
  {
  }

  lemma CutExtend(c: char, rest: seq<string>)
    requires Cut(rest) && c != '\n'
    ensures Cut([[c] + rest[0]] + rest[1..])
  {
  }

  lemma {:induction false} SplitJoined(s: string)
    ensures Concat(SplitAfter(s)) == s
  {
    if s == "" {
      assert Concat([""]) == "" + Concat([""][1..]);
    } else {
      hide Concat;
      SplitJoined(s[1..]);
      var rest := SplitAfter(s[1..]);
      assert [s[0]] + s[1..] == s;
      if s[0] == '\n' {
        ConcatCons("\n", rest);
      } else {
        ConcatExtend(s[0], rest);
      }
    }
  }

  lemma ConcatExtend(c: char, rest: seq<string>)
    requires rest != []
    ensures Concat([[c] + rest[0]] + rest[1..]) == [c] + Concat(rest)
  {
    hide Concat;
    var y, tail := rest[0], rest[1..];
    ConcatCons([c] + y, tail);
    ConcatCons(y, tail);
    assert [y] + tail == rest;
    Associative([c], y, Concat(tail));
  }

  lemma Associative(x: string, y: string, z: string)
    ensures (x + y) + z == x + (y + z)
  {
  }

  lemma ConcatCons(first: string, rest: seq<string>)
    ensures Concat([first] + rest) == first + Concat(rest)
  {
    assert ([first] + rest)[1..] == rest;
  }

  /** Cutting after each newline loses nothing. */
  lemma SplitIsCut(s: string)
    ensures Cut(SplitAfter(s)) && Concat(SplitAfter(s)) == s
  {
    SplitPieces(s);
    SplitJoined(s);
  }

  lemma {:induction false} SplitOfPiece(line: string, rest: string)
    requires Piece(line) && Ended(line)
    ensures SplitAfter(line + rest) == [line] + SplitAfter(rest)
  {
    assert (line + rest)[1..] == line[1..] + rest;
    if |line| > 1 {
      assert Piece(line[1..]) && Ended(line[1..]);
      SplitOfPiece(line[1..], rest);
      assert [line[0]] + line[1..] == line;
    } else {
      assert line == "\n" && line[1..] + rest == rest;
    }
  }

  lemma {:induction false} SplitOfLast(line: string)
    requires Piece(line) && !Ended(line)
    ensures SplitAfter(line) == [line]
  {
    if line != "" {
      SplitOfLast(line[1..]);
      assert [line[0]] + line[1..] == line;
    }
  }

  /** A text has one cut. */
  lemma {:induction false} SplitOfConcat(pieces: seq<string>)
    requires Cut(pieces)
    ensures SplitAfter(Concat(pieces)) == pieces
  {
    if |pieces| == 1 {
      assert Concat(pieces) == pieces[0] + "" == pieces[0];
      SplitOfLast(pieces[0]);
    } else {
      var rest := pieces[1..];
      assert rest[|rest| - 1] == pieces[|pieces| - 1];
      SplitOfConcat(rest);
      SplitOfPiece(pieces[0], Concat(rest));
    }
  }

  // ---------- one line ----------

  /** bytes.TrimRight(line, "\r\n") */
  function TrimRight(line: string): (t: string)
    ensures t <= line
    ensures |t| > 0 ==> line[|t| - 1] != '\r' && line[|t| - 1] != '\n'
    ensures forall k :: |t| <= k < |line| ==> line[k] == '\r' || line[k] == '\n'
  {
    if line != "" && (line[|line| - 1] == '\r' || line[|line| - 1] == '\n')
    then TrimRight(line[..|line| - 1]) else line
  }

  /** bytes.TrimLeft(rest, " \t"), as the number of bytes dropped. */
  function Blanks(rest: string): (n: nat)
    ensures n <= |rest|
    ensures forall k :: 0 <= k < n ==> rest[k] == ' ' || rest[k] == '\t'
    ensures n < |rest| ==> rest[n] != ' ' && rest[n] != '\t'
  {
    if rest != "" && (rest[0] == ' ' || rest[0] == '\t') then 1 + Blanks(rest[1..]) else 0
  }

  /** Where the payload of a trimmed "data:" line begins. */
  function PrefixLength(trimmed: string): (n: nat)
    requires "data:" <= trimmed
    ensures 5 <= n <= |trimmed|
    ensures forall k :: 5 <= k < n ==> trimmed[k] == ' ' || trimmed[k] == '\t'
    ensures n < |trimmed| ==> trimmed[n] != ' ' && trimmed[n] != '\t'
  {
    5 + Blanks(trimmed[5..])
  }

  function RestoreLine(line: string, restore: JsonRestore): string {
    var trimmed := TrimRight(line);
    if !("data:" <= trimmed) then line
    else
      var n := PrefixLength(trimmed);
      trimmed[..n] + restore(trimmed[n..]) + line[|trimmed|..]
  }

  lemma RestoreLineUnchanged(line: string, restore: JsonRestore)
    requires var t := TrimRight(line); "data:" <= t ==> restore(t[PrefixLength(t)..]) == t[PrefixLength(t)..]
    ensures RestoreLine(line, restore) == line
  {
    var t := TrimRight(line);
    if "data:" <= t {
      assert t[..PrefixLength(t)] + t[PrefixLength(t)..] == t;
    }
    assert t + line[|t|..] == line;
  }

  /** Rebuilds the line only when its payload changed. */
  method RestoreToolUseNamesInSSELine(line: string, restore: JsonRestore) returns (r: string)
    ensures r == RestoreLine(line, restore)
  {
    var trimmed := TrimRight(line);
    var eol := line[|trimmed|..];
    if !("data:" <= trimmed) {
      return line;
    }
    var payload := trimmed[PrefixLength(trimmed)..];
    var restored := restore(payload);
    if restored == payload {
      RestoreLineUnchanged(line, restore);
      return line;
    }
    var prefixLen := |trimmed| - |payload|;
    var out := trimmed[..prefixLen];
    out := out + restored;
    return out + eol;
  }

  lemma TrimUnique(line: string, t: string)
    requires t <= line
    requires |t| > 0 ==> line[|t| - 1] != '\r' && line[|t| - 1] != '\n'
    requires forall k :: |t| <= k < |line| ==> line[k] == '\r' || line[k] == '\n'
    ensures TrimRight(line) == t
  {
  }

  /** The payload of a line does not depend on its terminator. */
  lemma RestoreLineThenEnd(text: string, eol: string, restore: JsonRestore)
    requires forall k :: 0 <= k < |eol| ==> eol[k] == '\r' || eol[k] == '\n'
    ensures RestoreLine(text + eol, restore) == RestoreLine(text, restore) + eol
  {
    var t := TrimRight(text);
    TrimUnique(text + eol, t);
    assert (text + eol)[|t|..] == text[|t|..] + eol;
    if "data:" <= t {
      var n := PrefixLength(t);
      var x, y := t[..n] + restore(t[n..]), text[|t|..];
      assert x + (y + eol) == (x + y) + eol;
    }
  }

  // ---------- a whole response ----------

  /** A JSON message as a whole, anything else line by line. */
  function RestoreText(body: string, valid: string -> bool, restore: JsonRestore): string {
    if valid(body) then restore(body)
    else Concat(MapSeq(SplitAfter(body), line => RestoreLine(line, restore)))
  }

  /** Overwrites the lines that changed; joins them only if one did. */
  method RestoreToolUseNames(body: string, valid: string -> bool, restore: JsonRestore) returns (r: string)
    ensures r == RestoreText(body, valid, restore)
  {
    if valid(body) {
      return restore(body);
    }
    var split := SplitAfter(body);
    var lines, changed := split, false;
    ghost var f := line => RestoreLine(line, restore);
    for i := 0 to |split|
      invariant |lines| == |split|
      invariant forall k :: 0 <= k < i ==> lines[k] == RestoreLine(split[k], restore)
      invariant forall k :: i <= k < |split| ==> lines[k] == split[k]
      invariant !changed ==> lines == split
    {
      var restored := RestoreToolUseNamesInSSELine(split[i], restore);
      if restored != split[i] {
        lines := lines[i := restored];
        changed := true;
      }
    }
    assert lines == MapSeq(split, f);
    SplitIsCut(body);
    if !changed {
      return body;
    }
    return Concat(lines);
  }

  /** No line of the text, taken on its own, is JSON. */
  predicate NoJson(pieces: seq<string>, valid: string -> bool) {
    forall k :: 0 <= k < |pieces| ==> !valid(pieces[k])
  }

  lemma RestoreOnePiece(line: string, valid: string -> bool, restore: JsonRestore)
    requires Piece(line) && !valid(line)
    ensures RestoreText(line, valid, restore) == RestoreLine(line, restore)
  {
    var f := l => RestoreLine(l, restore);
    var r := RestoreLine(line, restore);
    if Ended(line) {
      SplitOfPiece(line, "");
      assert line + "" == line;
      assert MapSeq([line] + [""], f) == [r, ""];
      assert Concat([r, ""]) == r + Concat([""]) && Concat([""]) == "" + Concat([]);
    } else {
      SplitOfLast(line);
      assert MapSeq([line], f) == [r];
      assert Concat([r]) == r + Concat([]);
    }
  }

  /** The hook may be called once per line or once per transcript. */
  lemma TranscriptIsItsLines(body: string, valid: string -> bool, restore: JsonRestore)
    requires !valid(body) && NoJson(SplitAfter(body), valid)
    ensures RestoreText(body, valid, restore)
         == Concat(MapSeq(SplitAfter(body), line => RestoreText(line, valid, restore)))
  {
    var pieces := SplitAfter(body);
    SplitIsCut(body);
    forall k | 0 <= k < |pieces| ensures RestoreText(pieces[k], valid, restore) == RestoreLine(pieces[k], restore) {
      RestoreOnePiece(pieces[k], valid, restore);
    }
    assert MapSeq(pieces, line => RestoreText(line, valid, restore)) == MapSeq(pieces, line => RestoreLine(line, restore));
  }

  /** A line without its terminator. */
  function Chomped(line: string): (t: string)
    ensures t <= line && |line| <= |t| + 2
    ensures forall k :: |t| <= k < |line| ==> line[k] == '\r' || line[k] == '\n'
  {
    if !Ended(line) then line
    else if |line| >= 2 && line[|line| - 2] == '\r' then line[..|line| - 2]
    else line[..|line| - 1]
  }

  /** The hook called on the line alone, its terminator put back by the host. */
  function RestoreThenEnd(line: string, valid: string -> bool, restore: JsonRestore): string {
    RestoreText(Chomped(line), valid, restore) + line[|Chomped(line)|..]
  }

  /** Nor does it matter whether the lines come with their terminators. */
  lemma TranscriptIsItsChompedLines(body: string, valid: string -> bool, restore: JsonRestore)
    requires !valid(body)
    requires forall k :: 0 <= k < |SplitAfter(body)| ==> !valid(Chomped(SplitAfter(body)[k]))
    ensures RestoreText(body, valid, restore) == Concat(MapSeq(SplitAfter(body), line => RestoreThenEnd(line, valid, restore)))
  {
    var pieces := SplitAfter(body);
    SplitPieces(body);
    forall k | 0 <= k < |pieces| ensures RestoreLine(pieces[k], restore) == RestoreThenEnd(pieces[k], valid, restore) {
      RestoreChomped(pieces[k], valid, restore);
    }
    assert MapSeq(pieces, line => RestoreLine(line, restore)) == MapSeq(pieces, line => RestoreThenEnd(line, valid, restore));
  }

  lemma RestoreChomped(line: string, valid: string -> bool, restore: JsonRestore)
    requires Piece(line) && !valid(Chomped(line))
    ensures RestoreLine(line, restore) == RestoreThenEnd(line, valid, restore)
  {
    var t := Chomped(line);
    RestoreOnePiece(t, valid, restore);
    RestoreLineThenEnd(t, line[|t|..], restore);
    assert t + line[|t|..] == line;
  }

  /** Restored payloads stay on their line. */
  ghost predicate KeepsLines(restore: JsonRestore) {
    forall p :: '\n' !in p ==> '\n' !in restore(p)
  }

  lemma NoNewlinePrefix(x: string, eol: string)
    requires '\n' !in x && Piece(eol)
    ensures Piece(x + eol) && (Ended(x + eol) <==> Ended(eol))
  {
  }

  lemma TrimmedHasNoNewline(line: string)
    requires Piece(line)
    ensures '\n' !in TrimRight(line) && Piece(line[|TrimRight(line)|..])
  {
  }

  lemma RestoredLineIsPiece(line: string, restore: JsonRestore)
    requires Piece(line) && KeepsLines(restore)
    ensures Piece(RestoreLine(line, restore)) && (Ended(RestoreLine(line, restore)) <==> Ended(line))
  {
    hide Piece, Ended, TrimRight, PrefixLength;
    var t := TrimRight(line);
    if "data:" <= t {
      var n, eol := PrefixLength(t), line[|t|..];
      TrimmedHasNoNewline(line);
      assert t == t[..n] + t[n..];
      assert '\n' !in t[n..] && '\n' !in t[..n] + restore(t[n..]);
      NoNewlinePrefix(t[..n] + restore(t[n..]), eol);
      NoNewlinePrefix(t, eol);
      assert line == t + eol;
    }
  }

  lemma MappedCut(pieces: seq<string>, out: seq<string>)
    requires Cut(pieces) && |out| == |pieces|
    requires forall k :: 0 <= k < |pieces| ==> Piece(out[k]) && (Ended(out[k]) <==> Ended(pieces[k]))
    ensures Cut(out)
  {
  }

  /** The restored transcript has the same lines, each the restored one: no line is
      split, joined or moved, and a line without "data:" is the same line. */
  lemma LineStructureKept(body: string, valid: string -> bool, restore: JsonRestore)
    requires !valid(body) && KeepsLines(restore)
    ensures SplitAfter(RestoreText(body, valid, restore)) == MapSeq(SplitAfter(body), line => RestoreLine(line, restore))
  {
    var pieces := SplitAfter(body);
    SplitPieces(body);
    var out := MapSeq(pieces, line => RestoreLine(line, restore));
    forall k | 0 <= k < |pieces| ensures Piece(out[k]) && (Ended(out[k]) <==> Ended(pieces[k])) {
      RestoredLineIsPiece(pieces[k], restore);
    }
    MappedCut(pieces, out);
    SplitOfConcat(out);
  }
}
