/** The shortcuts of the translated response hook: it gives up early on a text that
    does not spell `"tool_use"`, or no static alias when no map was found.  When does
    that, or anything else short of a restore, reach the client? */
module TranslatedExits {
  import opened Text
  import opened ToolNames
  import opened RewriteMap
  import opened RequestBody
  import opened RewriteStore
  import opened SseLines
  import opened ToolsKey
  import opened TranslatedRoute

  // ---------- the payloads of a text ----------

  /** `p` is the payload of a "data:" line. */
  predicate HasPayload(line: string, p: string) {
    var t := TrimRight(line);
    "data:" <= t && p == t[PrefixLength(t)..]
  }

  /** `p` is the document that `text` is, or the payload of one of its lines. */
  ghost predicate IsPayload(p: string, text: string, json: Json) {
    if json.valid(text) then p == text
    else exists k :: 0 <= k < |SplitAfter(text)| && HasPayload(SplitAfter(text)[k], p)
  }

  /** `b` is a block of a document in `text`. */
  ghost predicate BlockOf(b: Block, text: string, json: Json) {
    exists p :: IsPayload(p, text, json) && json.valid(p) && InDocument(b, p, json)
  }

  /** No block of the text is one whose name is to be edited. */
  ghost predicate Untouched(text: string, original: string, rw: Option<Rewrite>, json: Json) {
    forall b: Block :: BlockOf(b, text, json) ==> !Edited(b, original, rw, json)
  }

  /** The names edited into the text read as they were meant. */
  ghost predicate LegibleText(text: string, original: string, rw: Option<Rewrite>, json: Json) {
    forall b: Block :: BlockOf(b, text, json) && Edited(b, original, rw, json) ==>
      json.written(RealName(b.name, original, rw, json)) == RealName(b.name, original, rw, json)
  }

  // ---------- lines ----------

  lemma {:induction false} ContentStaysOnLine(out: string, root: seq<Block>, i: nat, original: string,
                                              rw: Option<Rewrite>, json: Json)
    requires EditsInPlace(json) && StaysOnLine(json) && json.valid(out) && '\n' !in out
    requires i <= |root| == |json.content(out)| && forall k :: i <= k < |root| ==> json.content(out)[k] == root[k]
    ensures '\n' !in EditContent(out, root, i, original, rw, json)
    decreases |root| - i
  {
    hide RealName;
    if i < |root| {
      var next := if Edited(root[i], original, rw, json)
                  then json.setContentName(out, i, RealName(root[i].name, original, rw, json)) else out;
      ContentStaysOnLine(next, root, i + 1, original, rw, json);
    }
  }

  /** A restored payload has no newline that the payload did not have. */
  lemma PayloadStaysOnLine(original: string, rw: Option<Rewrite>, json: Json)
    requires EditsInPlace(json) && StaysOnLine(json)
    ensures KeepsLines(payload => RestoredJson(payload, original, rw, json))
  {
    hide EditContent, RealName;
    forall p | '\n' !in p ensures '\n' !in RestoredJson(p, original, rw, json) {
      if json.valid(p) {
        ContentStaysOnLine(EditContentBlock(p, original, rw, json), json.content(p), 0, original, rw, json);
      }
    }
  }

  // ---------- what a restore changes ----------

  /** A line is restored to itself exactly when its payload is. */
  lemma LineKeptExactly(line: string, restore: JsonRestore)
    ensures RestoreLine(line, restore) == line <==> forall p :: HasPayload(line, p) ==> restore(p) == p
  {
    hide TrimRight, PrefixLength;
    var t := TrimRight(line);
    if "data:" <= t {
      var n := PrefixLength(t);
      LineParts(line, t, n);
      SameMiddle(t[..n], restore(t[n..]), t[n..], line[|t|..]);
    }
  }

  lemma LineParts(line: string, t: string, n: nat)
    requires t <= line && n <= |t|
    ensures t[..n] + t[n..] + line[|t|..] == line
  {
  }

  lemma SameMiddle(a: string, x: string, y: string, b: string)
    ensures a + x + b == a + y + b ==> x == y
  {
    if a + x + b == a + y + b {
      assert |x| == |y|;
      assert (a + x + b)[|a|..|a| + |x|] == x && (a + y + b)[|a|..|a| + |y|] == y;
    }
  }

  lemma RestoredLines(text: string, original: string, rw: Option<Rewrite>, json: Json)
    requires EditsInPlace(json) && StaysOnLine(json) && !json.valid(text)
    ensures var restore := payload => RestoredJson(payload, original, rw, json);
      && SplitAfter(Restored(text, original, rw, json)) == MapSeq(SplitAfter(text), line => RestoreLine(line, restore))
      && Restored(text, original, rw, json) == Concat(MapSeq(SplitAfter(text), line => RestoreLine(line, restore)))
  {
    PayloadStaysOnLine(original, rw, json);
    hide EditsInPlace, StaysOnLine, RestoredJson, RestoreLine, SplitAfter;
    LineStructureKept(text, json.valid, payload => RestoredJson(payload, original, rw, json));
  }

  /** A text is restored to itself exactly when each of its payloads is. */
  lemma RestoredSameByPayload(text: string, original: string, rw: Option<Rewrite>, json: Json)
    requires EditsInPlace(json) && StaysOnLine(json)
    ensures Restored(text, original, rw, json) == text
      <==> forall p :: IsPayload(p, text, json) ==> RestoredJson(p, original, rw, json) == p
  {
    hide EditsInPlace, StaysOnLine, RestoredJson, RestoreLine, SplitAfter, HasPayload;
    if json.valid(text) {
      assert IsPayload(text, text, json);
    } else {
      var lines, restore := SplitAfter(text), payload => RestoredJson(payload, original, rw, json);
      RestoredLines(text, original, rw, json);
      SplitIsCut(text);
      forall k | 0 <= k < |lines|
        ensures RestoreLine(lines[k], restore) == lines[k]
                <==> forall p :: HasPayload(lines[k], p) ==> restore(p) == p
      {
        LineKeptExactly(lines[k], restore);
      }
      var out := MapSeq(lines, line => RestoreLine(line, restore));
      if forall p :: IsPayload(p, text, json) ==> RestoredJson(p, original, rw, json) == p {
        forall k | 0 <= k < |lines| ensures out[k] == lines[k] {
          assert forall p :: HasPayload(lines[k], p) ==> IsPayload(p, text, json);
        }
        assert out == lines;
      }
    }
  }

  /** A document comes back as it is exactly when it has no block to edit. */
  lemma DocumentKeptExactly(p: string, text: string, original: string, rw: Option<Rewrite>, json: Json)
    requires EditsInPlace(json) && IsPayload(p, text, json)
    ensures Untouched(text, original, rw, json) ==> RestoredJson(p, original, rw, json) == p
    ensures LegibleText(text, original, rw, json) && RestoredJson(p, original, rw, json) == p ==>
      forall b: Block :: json.valid(p) && InDocument(b, p, json) ==> !Edited(b, original, rw, json)
  {
    hide EditsInPlace, RestoredJson, IsPayload, RealName;
    if json.valid(p) {
      if Untouched(text, original, rw, json) {
        forall b: Block | InDocument(b, p, json) ensures !Edited(b, original, rw, json) {
          assert BlockOf(b, text, json);
        }
        NothingToRestore(p, original, rw, json);
      }
      forall b: Block | InDocument(b, p, json) && LegibleText(text, original, rw, json) && Edited(b, original, rw, json)
        ensures RestoredJson(p, original, rw, json) != p
      {
        assert BlockOf(b, text, json);
        RestoredDiffers(p, b, original, rw, json);
      }
    } else {
      InvalidKept(p, original, rw, json);
    }
  }

  lemma InvalidKept(p: string, original: string, rw: Option<Rewrite>, json: Json)
    requires !json.valid(p)
    ensures RestoredJson(p, original, rw, json) == p
  {
  }

  /** A text is restored to itself exactly when none of its blocks is to be edited. */
  lemma RestoredSameExactly(text: string, original: string, rw: Option<Rewrite>, json: Json)
    requires EditsInPlace(json) && StaysOnLine(json)
    ensures Untouched(text, original, rw, json) ==> Restored(text, original, rw, json) == text
    ensures LegibleText(text, original, rw, json) ==>
      (Restored(text, original, rw, json) == text <==> Untouched(text, original, rw, json))
  {
    hide EditsInPlace, StaysOnLine, RestoredJson, Restored, IsPayload, Edited, InDocument, LegibleText;
    RestoredSameByPayload(text, original, rw, json);
    forall p | IsPayload(p, text, json)
      ensures Untouched(text, original, rw, json) ==> RestoredJson(p, original, rw, json) == p
      ensures LegibleText(text, original, rw, json) && RestoredJson(p, original, rw, json) == p ==>
        forall b: Block :: json.valid(p) && InDocument(b, p, json) ==> !Edited(b, original, rw, json)
    {
      DocumentKeptExactly(p, text, original, rw, json);
    }
  }

  // ---------- what is delivered ----------

  lemma {:induction false} ConcatEmpty(pieces: seq<string>)
    ensures Concat(pieces) == "" <==> forall k :: 0 <= k < |pieces| ==> pieces[k] == ""
  {
    if pieces != [] {
      ConcatEmpty(pieces[1..]);
      assert forall k :: 0 < k < |pieces| ==> pieces[k] == pieces[1..][k - 1];
    }
  }

  lemma LineNonEmpty(line: string, restore: JsonRestore)
    ensures RestoreLine(line, restore) == "" ==> line == ""
  {
  }

  lemma RestoredNonEmpty(text: string, original: string, rw: Option<Rewrite>, json: Json)
    requires EditsInPlace(json) && !json.valid("")
    ensures Restored(text, original, rw, json) == "" ==> text == ""
  {
    hide RestoredJson, EditsInPlace, SplitAfter, RestoreLine, Concat, Cut;
    if json.valid(text) {
      OnlyToolUseNamesChange(text, original, rw, json);
    } else {
      var pieces := SplitAfter(text);
      var restore := payload => RestoredJson(payload, original, rw, json);
      var out := MapSeq(pieces, line => RestoreLine(line, restore));
      SplitIsCut(text);
      ConcatEmpty(pieces);
      ConcatEmpty(out);
      forall k | 0 <= k < |pieces| ensures out[k] == "" ==> pieces[k] == "" {
        LineNonEmpty(pieces[k], restore);
      }
    }
  }

  /** Past the early exits, neither the comparison with the input nor the empty reply
      that means "leave as is" can be seen in what is delivered. */
  lemma DeliveredCases(store: Store, text: string, translatedRequest: Body, original: string, hash: Hash, json: Json)
    requires Sound(json)
    ensures var rw := store.Get(BodyKey(translatedRequest, hash));
      Delivered(store, text, translatedRequest, original, hash, json)
      == if EarlyExit(text, rw) then text else Restored(text, original, rw, json)
  {
    hide EarlyExit, Restored, EditsInPlace, StaysOnLine, BodyKey;
    RestoredNonEmpty(text, original, store.Get(BodyKey(translatedRequest, hash)), json);
  }

  /** What is delivered is the restored text exactly when the hook does not give up on a
      text with a block to edit. */
  lemma DeliveredIsRestored(store: Store, text: string, translatedRequest: Body, original: string, hash: Hash, json: Json)
    requires Sound(json)
    ensures var rw := store.Get(BodyKey(translatedRequest, hash));
      var restored := Restored(text, original, rw, json);
      var out := Delivered(store, text, translatedRequest, original, hash, json);
      && ((EarlyExit(text, rw) ==> Untouched(text, original, rw, json)) ==> out == restored)
      && (LegibleText(text, original, rw, json) && out == restored ==>
            (EarlyExit(text, rw) ==> Untouched(text, original, rw, json)))
  {
    hide EarlyExit, Restored, EditsInPlace, StaysOnLine, BodyKey, Untouched, LegibleText, Delivered;
    DeliveredCases(store, text, translatedRequest, original, hash, json);
    RestoredSameExactly(text, original, store.Get(BodyKey(translatedRequest, hash)), json);
  }

  // ---------- a transcript and its lines ----------

  lemma SliceOfSlice(text: string, i: nat, j: nat, k: nat, l: nat)
    requires i <= j <= |text| && k <= l <= j - i
    ensures text[i..j][k..l] == text[i + k..i + l]
  {
    var a, b := text[i..j][k..l], text[i + k..i + l];
    assert |a| == |b| && forall x :: 0 <= x < |a| ==> a[x] == b[x];
  }

  lemma ContainsPart(text: string, i: nat, part: string, pat: string)
    requires OccursAt(text, i, part)
    ensures Contains(part, pat) ==> Contains(text, pat)
  {
    if Contains(part, pat) {
      var k := IndexFrom(part, pat, 0).value;
      SliceOfSlice(text, i, i + |part|, k, k + |pat|);
      assert OccursAt(text, i + k, pat);
    }
  }

  lemma {:induction false} PieceOccurs(pieces: seq<string>, k: nat) returns (i: nat)
    requires k < |pieces|
    ensures OccursAt(Concat(pieces), i, pieces[k])
  {
    if k == 0 {
      i := 0;
    } else {
      i := PieceOccurs(pieces[1..], k - 1);
      var rest := Concat(pieces[1..]);
      i := |pieces[0]| + i;
      assert Concat(pieces)[i..i + |pieces[k]|] == rest[i - |pieces[0]|..i - |pieces[0]| + |pieces[k]|];
    }
  }

  /** The hook gives up on every line of a text it gives up on. */
  lemma ExitOnLine(text: string, k: nat, rw: Option<Rewrite>)
    requires k < |SplitAfter(text)| && EarlyExit(text, rw)
    ensures EarlyExit(SplitAfter(text)[k], rw)
  {
    hide Contains, SplitAfter;
    SplitIsCut(text);
    var i := PieceOccurs(SplitAfter(text), k);
    var line := SplitAfter(text)[k];
    ContainsPart(text, i, line, TOOL_USE);
    ContainsPart(text, i, line, Sessions.Replacement());
    ContainsPart(text, i, line, Session.Replacement());
    ContainsPart(text, i, line, Mcp.Replacement());
  }

  lemma LinesOfPiece(line: string)
    requires Piece(line)
    ensures SplitAfter(line) == if Ended(line) then [line, ""] else [line]
  {
    if Ended(line) {
      SplitOfPiece(line, "");
      assert line + "" == line;
    } else {
      SplitOfLast(line);
    }
  }

  /** The blocks of a line are blocks of the text. */
  lemma BlockOfLine(text: string, k: nat, b: Block, json: Json)
    requires !json.valid(text) && k < |SplitAfter(text)| && !json.valid(SplitAfter(text)[k])
    requires BlockOf(b, SplitAfter(text)[k], json)
    ensures BlockOf(b, text, json)
  {
    hide HasPayload, SplitAfter, InDocument;
    var line := SplitAfter(text)[k];
    SplitIsCut(text);
    LinesOfPiece(line);
    var p :| IsPayload(p, line, json) && json.valid(p) && InDocument(b, p, json);
    NoPayloadInNothing(p);
    assert HasPayload(SplitAfter(text)[k], p);
    assert IsPayload(p, text, json);
  }

  lemma NoPayloadInNothing(p: string)
    ensures !HasPayload("", p)
  {
  }

  /** What is delivered of a line passed on its own. */
  lemma LineDelivered(store: Store, line: string, translatedRequest: Body, original: string, hash: Hash, json: Json)
    requires Sound(json) && Piece(line) && !json.valid(line)
    ensures var rw := store.Get(BodyKey(translatedRequest, hash));
      var restored := RestoreLine(line, payload => RestoredJson(payload, original, rw, json));
      && Restored(line, original, rw, json) == restored
      && Delivered(store, line, translatedRequest, original, hash, json) == (if EarlyExit(line, rw) then line else restored)
      && Piece(restored) && (Ended(restored) <==> Ended(line))
  {
    hide EarlyExit, RestoredJson, RestoreLine, BodyKey, Delivered, EditsInPlace, StaysOnLine;
    var rw := store.Get(BodyKey(translatedRequest, hash));
    var restore := payload => RestoredJson(payload, original, rw, json);
    DeliveredCases(store, line, translatedRequest, original, hash, json);
    RestoreOnePiece(line, json.valid, restore);
    PayloadStaysOnLine(original, rw, json);
    RestoredLineIsPiece(line, restore);
  }

  /** No line is given up on that has a block to edit. */
  ghost predicate LinesHarmless(text: string, original: string, rw: Option<Rewrite>, json: Json) {
    forall k :: 0 <= k < |SplitAfter(text)| && EarlyExit(SplitAfter(text)[k], rw) ==>
      Untouched(SplitAfter(text)[k], original, rw, json)
  }

  function DeliveredLines(store: Store, text: string, translatedRequest: Body, original: string, hash: Hash, json: Json)
    : seq<string>
  {
    MapSeq(SplitAfter(text), line => Delivered(store, line, translatedRequest, original, hash, json))
  }

  lemma CutsApart(a: seq<string>, b: seq<string>)
    requires Cut(a) && Cut(b)
    ensures Concat(a) == Concat(b) <==> a == b
  {
    SplitOfConcat(a);
    SplitOfConcat(b);
  }

  /** Calling the hook once per line delivers what one call on the transcript would,
      exactly when the transcript is given up on or no line wrongly is. */
  lemma DeliveredByLine(store: Store, text: string, translatedRequest: Body, original: string, hash: Hash, json: Json)
    requires Sound(json) && !json.valid(text) && NoJson(SplitAfter(text), json.valid)
    ensures var rw := store.Get(BodyKey(translatedRequest, hash));
      var whole := Delivered(store, text, translatedRequest, original, hash, json);
      var byLine := Concat(DeliveredLines(store, text, translatedRequest, original, hash, json));
      && (EarlyExit(text, rw) || LinesHarmless(text, original, rw, json) ==> byLine == whole)
      && (LegibleText(text, original, rw, json) && byLine == whole ==>
            EarlyExit(text, rw) || LinesHarmless(text, original, rw, json))
  {
    hide EarlyExit, RestoredJson, Restored, RestoreLine, BodyKey, Delivered, EditsInPlace, StaysOnLine, SplitAfter;
    hide Untouched, Piece, Ended, Concat, Cut;
    var rw := store.Get(BodyKey(translatedRequest, hash));
    var lines := SplitAfter(text);
    var restored := MapSeq(lines, line => RestoreLine(line, payload => RestoredJson(payload, original, rw, json)));
    var outs := DeliveredLines(store, text, translatedRequest, original, hash, json);
    SplitIsCut(text);
    DeliveredCases(store, text, translatedRequest, original, hash, json);
    RestoredLines(text, original, rw, json);
    forall k | 0 <= k < |lines|
      ensures outs[k] == if EarlyExit(lines[k], rw) then lines[k] else restored[k]
      ensures EarlyExit(text, rw) ==> EarlyExit(lines[k], rw)
      ensures Piece(outs[k]) && (Ended(outs[k]) <==> Ended(lines[k]))
      ensures Piece(restored[k]) && (Ended(restored[k]) <==> Ended(lines[k]))
      ensures Untouched(lines[k], original, rw, json) ==> restored[k] == lines[k]
      ensures LegibleText(text, original, rw, json) && restored[k] == lines[k] ==> Untouched(lines[k], original, rw, json)
    {
      PieceOfCut(lines, k);
      LineDelivered(store, lines[k], translatedRequest, original, hash, json);
      if EarlyExit(text, rw) {
        ExitOnLine(text, k, rw);
      }
      RestoredSameExactly(lines[k], original, rw, json);
      if LegibleText(text, original, rw, json) {
        LegibleLine(text, k, original, rw, json);
      }
    }
    if EarlyExit(text, rw) {
      assert outs == lines;
    } else {
      MappedCut(lines, outs);
      MappedCut(lines, restored);
      CutsApart(outs, restored);
      if LinesHarmless(text, original, rw, json) {
        assert outs == restored;
      }
    }
  }

  lemma PieceOfCut(pieces: seq<string>, k: nat)
    requires Cut(pieces) && k < |pieces|
    ensures Piece(pieces[k])
  {
  }

  lemma LegibleLine(text: string, k: nat, original: string, rw: Option<Rewrite>, json: Json)
    requires !json.valid(text) && k < |SplitAfter(text)| && !json.valid(SplitAfter(text)[k])
    requires LegibleText(text, original, rw, json)
    ensures LegibleText(SplitAfter(text)[k], original, rw, json)
  {
    hide Edited, BlockOf, RealName;
    forall b: Block | BlockOf(b, SplitAfter(text)[k], json) ensures BlockOf(b, text, json) {
      BlockOfLine(text, k, b, json);
    }
  }

  // ---------- when the early exits cost nothing ----------

  predicate LooksAliased(name: string) {
    Sessions.Replacement() <= name || Session.Replacement() <= name || Mcp.Replacement() <= name
  }

  lemma UnaliasOther(name: string)
    ensures LooksAliased(name) <==> UnaliasToolName(name) != name
  {
    if LooksAliased(name) {
      var r: StaticRule :| r.Replacement() <= name;
      var rules := [Sessions, Session, Mcp];
      assert r == rules[0] || r == rules[1] || r == rules[2] by {
        assert r.Sessions? || r.Session? || r.Mcp?;
      }
      UnaliasBy(rules, r, name);
      assert Unrename(r, name)[0] == r.Prefix()[0] != r.Replacement()[0] == name[0];
    } else {
      forall r: StaticRule ensures !(r.Replacement() <= name) {
      }
      UnaliasNone([Sessions, Session, Mcp], name);
    }
  }

  /** The text spells `"tool_use"` without escapes if it has such a block, and a static
      alias if the name of one begins like that. */
  ghost predicate SpeltOut(text: string, json: Json) {
    forall b: Block :: BlockOf(b, text, json) && b.blockType == "tool_use" ==>
      && Contains(text, "\"tool_use\"")
      && (LooksAliased(b.name) ==> Contains(text, "cc_sess_") || Contains(text, "cc_ses_") || Contains(text, "cc_mcp_"))
  }

  lemma StaticAliasSpelt(text: string)
    ensures ContainsStaticAlias(text) <==> Contains(text, "cc_sess_") || Contains(text, "cc_ses_") || Contains(text, "cc_mcp_")
  {
    hide Contains;
  }

  /** The hook never gives up on this text when there is something to edit. */
  ghost predicate ExitsHarmless(text: string, json: Json) {
    forall original, rw :: EarlyExit(text, rw) ==> Untouched(text, original, rw, json)
  }

  /** Whatever map is found and whatever the client sent, the early exits cost nothing
      exactly when the text spells out what they look for. */
  lemma ExitsHarmlessExactly(text: string, json: Json)
    requires forall n :: json.quote(n) != ""
    ensures ExitsHarmless(text, json) <==> SpeltOut(text, json)
  {
    hide Contains, BlockOf, LooksAliased, ContainsStaticAlias, UnaliasToolName, FirstMatch;
    StaticAliasSpelt(text);
    forall b: Block ensures LooksAliased(b.name) <==> UnaliasToolName(b.name) != b.name {
      UnaliasOther(b.name);
    }
    if ExitsHarmless(text, json) {
      forall b: Block | BlockOf(b, text, json) && IsToolUse(b)
        ensures Contains(text, TOOL_USE) && (LooksAliased(b.name) ==> ContainsStaticAlias(text))
      {
        NotSpeltIsHarm(text, b, json);
      }
    }
  }

  /** A block the text does not spell out, with a map that has it edited. */
  lemma NotSpeltIsHarm(text: string, b: Block, json: Json)
    requires json.quote(b.name) != "" && BlockOf(b, text, json) && IsToolUse(b)
    ensures !(Contains(text, TOOL_USE) && (LooksAliased(b.name) ==> ContainsStaticAlias(text)))
            ==> exists rw :: EarlyExit(text, rw) && !Untouched(text, "", rw, json)
  {
    hide BlockOf, ContainsStaticAlias, LooksAliased, UnaliasToolName;
    assert !Contains("", json.quote(b.name));
    if !Contains(text, TOOL_USE) {
      var other := b.name + "x";
      var rw := Some(Rewrite(map[other := b.name], [(b.name, other)]));
      assert !Empty(rw) && FirstMatch(b.name, rw.value.reverseOrdered) == other;
      assert Edited(b, "", rw, json);
      assert EarlyExit(text, rw) && !Untouched(text, "", rw, json);
    } else if LooksAliased(b.name) && !ContainsStaticAlias(text) {
      UnaliasOther(b.name);
      assert Edited(b, "", None, json);
      assert EarlyExit(text, None) && !Untouched(text, "", None, json);
    }
  }

  // ---------- a reply that is not spelt out ----------

  const HEAD := "{\"content\":[{\"type\":\"tool_use\",\"name\":\""
  const ESCAPED_HEAD := "{\"content\":[{\"type\":\"tool\\u005fuse\",\"name\":\""
  const TAIL := "\"}]}"

  /** One tool_use block named by a static alias, its type written with an escape. */
  const ESCAPED_REPLY := ESCAPED_HEAD + ("cc_mcp_x" + TAIL)

  lemma NoUnderscoreInHead(k: nat)
    requires k < |ESCAPED_HEAD|
    ensures ESCAPED_HEAD[k] != '_' && (k + 4 >= |ESCAPED_HEAD| ==> ESCAPED_HEAD[k] != 't')
  {
  }

  lemma EscapedIsNotSpelt()
    ensures !Contains(ESCAPED_REPLY, TOOL_USE)
  {
    var s, rest := ESCAPED_REPLY, "cc_mcp_x" + TAIL;
    forall k | 0 <= k && k + |TOOL_USE| <= |s| ensures !OccursAt(s, k, TOOL_USE) {
      assert TOOL_USE[1] == 't' && TOOL_USE[5] == '_';
      assert s[k..k + |TOOL_USE|][1] == s[k + 1] && s[k..k + |TOOL_USE|][5] == s[k + 5];
      if k + 5 < |ESCAPED_HEAD| {
        NoUnderscoreInHead(k + 5);
      } else if k + 1 < |ESCAPED_HEAD| {
        NoUnderscoreInHead(k + 1);
      } else {
        assert s[k + 1] == rest[k + 1 - |ESCAPED_HEAD|];
      }
    }
  }

  /** A library that reads the escape sees a block to edit; the hook does not, whatever
      its store holds, and the alias reaches the client. */
  lemma EscapedReplyNotRestored(store: Store, translatedRequest: Body, hash: Hash, json: Json, rest: string)
    requires json.valid(ESCAPED_REPLY) && json.content(ESCAPED_REPLY) == [Block("tool_use", "cc_mcp_x", rest)]
    requires json.quote("cc_mcp_x") != ""
    ensures Delivered(store, ESCAPED_REPLY, translatedRequest, "", hash, json) == ESCAPED_REPLY
    ensures !Untouched(ESCAPED_REPLY, "", None, json) && !SpeltOut(ESCAPED_REPLY, json)
    ensures EditsInPlace(json) ==>
      json.content(Restored(ESCAPED_REPLY, "", None, json)) == [Block("tool_use", json.written("mcp_x"), rest)]
  {
    hide Contains, UnaliasToolName, Restored, BodyKey;
    EscapedIsNotSpelt();
    var b := Block("tool_use", "cc_mcp_x", rest);
    assert IsPayload(ESCAPED_REPLY, ESCAPED_REPLY, json) && b in json.content(ESCAPED_REPLY);
    assert BlockOf(b, ESCAPED_REPLY, json);
    assert LooksAliased("cc_mcp_x");
    UnaliasOther("cc_mcp_x");
    NotInNothing(json.quote("cc_mcp_x"));
    assert Edited(b, "", None, json);
    if EditsInPlace(json) {
      RealNameOfAlias();
      EscapedReplyRestored(json, b);
    }
  }

  lemma RealNameOfAlias()
    ensures UnaliasToolName("cc_mcp_x") == "mcp_x"
  {
    UnaliasBy([Sessions, Session, Mcp], Mcp, "cc_mcp_x");
    assert "cc_mcp_x"[7..] == "x";
    assert "mcp_" + "x" == "mcp_x";
  }

  lemma EscapedReplyRestored(json: Json, b: Block)
    requires EditsInPlace(json) && json.valid(ESCAPED_REPLY) && json.content(ESCAPED_REPLY) == [b] && Edited(b, "", None, json)
    requires RealName(b.name, "", None, json) == "mcp_x"
    ensures json.content(Restored(ESCAPED_REPLY, "", None, json)) == [b.(name := json.written("mcp_x"))]
  {
    hide RealName, RestoredJson, EditsInPlace;
    OnlyToolUseNamesChange(ESCAPED_REPLY, "", None, json);
  }

  lemma NotInNothing(pat: string)
    requires pat != ""
    ensures !Contains("", pat)
  {
  }

  // ---------- the assumptions can be met ----------

  function Escape(s: string): string {
    if s == "" then "" else (if s[0] == '\n' then "\\n" else if s[0] == '\\' then "\\\\" else [s[0]]) + Escape(s[1..])
  }

  function Unescape(s: string): string {
    if s == "" then ""
    else if s[0] == '\\' && |s| > 1 then [if s[1] == 'n' then '\n' else s[1]] + Unescape(s[2..])
    else [s[0]] + Unescape(s[1..])
  }

  lemma {:induction false} EscapeUndone(s: string)
    ensures Unescape(Escape(s)) == s
    ensures '\n' !in Escape(s)
  {
    if s != "" {
      EscapeUndone(s[1..]);
      var e := Escape(s[1..]);
      assert ("\\n" + e)[2..] == e && ("\\\\" + e)[2..] == e && ([s[0]] + e)[1..] == e;
    }
  }

  lemma {:induction false} EscapeNothing(s: string)
    requires forall k :: 0 <= k < |s| ==> s[k] != '\n' && s[k] != '\\'
    ensures Escape(s) == s
  {
    if s != "" {
      EscapeNothing(s[1..]);
    }
  }

  /** What the document spells its block's type with, and the name between that and the end. */
  function HeadOf(t: string): string {
    if ESCAPED_HEAD <= t then ESCAPED_HEAD else HEAD
  }

  predicate Framed(t: string) {
    HeadOf(t) <= t && |HeadOf(t)| + |TAIL| <= |t| && t[|t| - |TAIL|..] == TAIL
  }

  function Inner(t: string): string
    requires Framed(t)
  {
    t[|HeadOf(t)|..|t| - |TAIL|]
  }

  /** A library that reads documents of one tool_use block, in either spelling. */
  function OneBlockLibrary(): Json {
    Json(
      t => Framed(t) && Escape(Unescape(Inner(t))) == Inner(t),
      t => None,
      t => if Framed(t) then [Block("tool_use", Unescape(Inner(t)), "")] else [],
      t => HeadOf(t),
      (t, n) => t,
      (t, i, n) => HeadOf(t) + (Escape(n) + TAIL),
      n => n,
      n => "\"" + Escape(n) + "\"")
  }

  lemma HeadsDiffer()
    ensures |HEAD| > 25 && |ESCAPED_HEAD| > 25 && HEAD[25] == '_' && ESCAPED_HEAD[25] == '\\'
  {
  }

  lemma OneLine()
    ensures '\n' !in HEAD && '\n' !in ESCAPED_HEAD && '\n' !in TAIL
  {
  }

  lemma BetweenEnds(head: string, middle: string, tail: string)
    ensures var t := head + (middle + tail);
      head <= t && |head| + |tail| <= |t| && t[|t| - |tail|..] == tail && t[|head|..|t| - |tail|] == middle
  {
  }

  lemma FramedText(head: string, middle: string)
    requires head == HEAD || head == ESCAPED_HEAD
    ensures var t := head + (middle + TAIL); HeadOf(t) == head && Framed(t) && Inner(t) == middle
  {
    var t := head + (middle + TAIL);
    HeadsDiffer();
    assert t[25] == head[25];
    assert HeadOf(t) == head;
    BetweenEnds(head, middle, TAIL);
  }

  lemma OneBlockDocument(head: string, n: string)
    requires head == HEAD || head == ESCAPED_HEAD
    ensures var json, t := OneBlockLibrary(), head + (Escape(n) + TAIL);
      && json.valid(t) && json.content(t) == [Block("tool_use", n, "")] && json.frame(t) == head && '\n' !in t
  {
    OneLine();
    EscapeUndone(n);
    FramedText(head, Escape(n));
  }

  /** It is sound, and reads the escaped reply as `EscapedReplyNotRestored` asks. */
  lemma OneBlockLibrarySound()
    ensures Sound(OneBlockLibrary())
    ensures OneBlockLibrary().valid(ESCAPED_REPLY)
    ensures OneBlockLibrary().content(ESCAPED_REPLY) == [Block("tool_use", "cc_mcp_x", "")]
  {
    hide Escape, Unescape, Framed, Inner;
    var json := OneBlockLibrary();
    forall t, i: nat, n | json.valid(t) && i < |json.content(t)|
      ensures var u := json.setContentName(t, i, n);
        && json.valid(u) && json.frame(u) == json.frame(t) && '\n' !in u
        && json.content(u) == json.content(t)[i := json.content(t)[i].(name := n)]
    {
      OneBlockDocument(HeadOf(t), n);
    }
    NothingFramed();
    EscapeNothing("cc_mcp_x");
    OneBlockDocument(ESCAPED_HEAD, "cc_mcp_x");
  }

  lemma NothingFramed()
    ensures !Framed("")
  {
  }
}
