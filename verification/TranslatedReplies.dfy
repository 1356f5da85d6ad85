/** What a translated route delivers, end to end: a whole document or a transcript comes
    back with the real names of its own request and is otherwise the same. */
module TranslatedReplies {
  import opened Text
  import opened ToolNames
  import opened RewriteMap
  import opened RoundTrip
  import opened RequestBody
  import opened RewriteStore
  import opened SseLines
  import opened ToolsKey
  import opened TranslatedRoute
  import opened TranslatedExits
  import opened TranslatedRuns

  // ---------- what the client should see ----------

  /** A name of the reply, seen through the reversal of one request's renames: real, as
      the library writes it, unless the client itself spells the alias. */
  function ClientName(name: string, original: string, reverse: map<string, string>, json: Json): string {
    if Contains(original, json.quote(name)) then name
    else if name in reverse then json.written(reverse[name])
    else name
  }

  function ClientBlock(b: Block, original: string, reverse: map<string, string>, json: Json): Block {
    if b.blockType == "tool_use" then b.(name := ClientName(b.name, original, reverse, json)) else b
  }

  /** `out` is the document `t` with the names of its tool_use blocks as the client
      knows them, everything else the same. */
  ghost predicate ClientDocument(t: string, out: string, original: string, reverse: map<string, string>, json: Json) {
    && json.valid(out) && json.frame(out) == json.frame(t)
    && |json.content(out)| == |json.content(t)|
    && (forall k :: 0 <= k < |json.content(t)| ==>
          json.content(out)[k] == ClientBlock(json.content(t)[k], original, reverse, json))
    && (json.contentBlock(out).Some? <==> json.contentBlock(t).Some?)
    && (json.contentBlock(t).Some? ==>
          json.contentBlock(out).value == ClientBlock(json.contentBlock(t).value, original, reverse, json))
  }

  /** The same for one line: field name, blanks and terminator stay, a payload that is
      a document is restored, any other line is the same line. */
  ghost predicate ClientLine(line: string, out: string, original: string, reverse: map<string, string>, json: Json) {
    var t := TrimRight(line);
    var eol := line[|t|..];
    if !("data:" <= t) then out == line
    else
      var n := PrefixLength(t);
      && n + |eol| <= |out| && out[..n] == t[..n] && out[|out| - |eol|..] == eol
      && var payload := out[n..|out| - |eol|];
         if json.valid(t[n..]) then ClientDocument(t[n..], payload, original, reverse, json) else payload == t[n..]
  }

  ghost predicate ClientText(text: string, out: string, original: string, reverse: map<string, string>, json: Json) {
    if json.valid(text) then ClientDocument(text, out, original, reverse, json)
    else
      var lines, outLines := SplitAfter(text), SplitAfter(out);
      |outLines| == |lines| && forall k :: 0 <= k < |lines| ==> ClientLine(lines[k], outLines[k], original, reverse, json)
  }

  // ---------- one text, one map ----------

  /** `reverse` is what the map in use reverses, and no name is its own alias. */
  ghost predicate Reverses(rw: Option<Rewrite>, reverse: map<string, string>) {
    && rw.Some? && rw.value.forward != map[] && Lists(rw.value.reverseOrdered, reverse)
    && forall a :: a in reverse ==> reverse[a] != a
  }

  lemma BlockRestored(b: Block, original: string, rw: Option<Rewrite>, reverse: map<string, string>, json: Json)
    requires Reverses(rw, reverse)
    ensures RestoredBlock(b, original, rw, json) == ClientBlock(b, original, reverse, json)
  {
    FirstMatchIsLookup(b.name, rw.value.reverseOrdered, reverse);
  }

  lemma DocumentRestored(t: string, original: string, rw: Option<Rewrite>, reverse: map<string, string>, json: Json)
    requires EditsInPlace(json) && json.valid(t) && Reverses(rw, reverse)
    ensures ClientDocument(t, RestoredJson(t, original, rw, json), original, reverse, json)
  {
    hide RestoredJson, EditsInPlace, RestoredBlock, ClientBlock, Reverses;
    OnlyToolUseNamesChange(t, original, rw, json);
    forall b: Block ensures RestoredBlock(b, original, rw, json) == ClientBlock(b, original, reverse, json) {
      BlockRestored(b, original, rw, reverse, json);
    }
  }

  lemma LineRestored(line: string, original: string, rw: Option<Rewrite>, reverse: map<string, string>, json: Json)
    requires EditsInPlace(json) && Reverses(rw, reverse)
    ensures ClientLine(line, RestoreLine(line, payload => RestoredJson(payload, original, rw, json)), original, reverse, json)
  {
    var t := TrimRight(line);
    var eol := line[|t|..];
    hide EditsInPlace, Reverses, TrimRight, PrefixLength, ClientDocument;
    if "data:" <= t {
      var n := PrefixLength(t);
      var q := RestoredJson(t[n..], original, rw, json);
      var out := t[..n] + q + eol;
      assert out[..n] == t[..n] && out[|out| - |eol|..] == eol && out[n..|out| - |eol|] == q;
      if json.valid(t[n..]) {
        DocumentRestored(t[n..], original, rw, reverse, json);
      }
    }
  }

  /** Document or transcript, a text is restored to what the client should see. */
  lemma TextRestored(text: string, original: string, rw: Option<Rewrite>, reverse: map<string, string>, json: Json)
    requires EditsInPlace(json) && StaysOnLine(json) && Reverses(rw, reverse)
    ensures ClientText(text, Restored(text, original, rw, json), original, reverse, json)
  {
    hide EditsInPlace, StaysOnLine, Reverses, RestoredJson, ClientLine, ClientDocument, RestoreLine;
    if json.valid(text) {
      DocumentRestored(text, original, rw, reverse, json);
    } else {
      var restore := payload => RestoredJson(payload, original, rw, json);
      PayloadStaysOnLine(original, rw, json);
      LineStructureKept(text, json.valid, restore);
      forall k | 0 <= k < |SplitAfter(text)|
        ensures ClientLine(SplitAfter(text)[k], RestoreLine(SplitAfter(text)[k], restore), original, reverse, json)
      {
        LineRestored(SplitAfter(text)[k], original, rw, reverse, json);
      }
    }
  }

  // ---------- texts that need no restore ----------

  /** Every tool_use name in the text is already the client's. */
  ghost predicate AllKnown(text: string, original: string, reverse: map<string, string>, json: Json) {
    forall b: Block :: BlockOf(b, text, json) ==> ClientBlock(b, original, reverse, json) == b
  }

  lemma KnownDocument(p: string, original: string, reverse: map<string, string>, json: Json)
    requires json.valid(p)
    ensures ClientDocument(p, p, original, reverse, json)
      <==> forall b: Block :: InDocument(b, p, json) ==> ClientBlock(b, original, reverse, json) == b
  {
    hide ClientBlock;
    if ClientDocument(p, p, original, reverse, json) {
      forall b: Block | InDocument(b, p, json) ensures ClientBlock(b, original, reverse, json) == b {
      }
    } else if forall b: Block :: InDocument(b, p, json) ==> ClientBlock(b, original, reverse, json) == b {
      assert forall k :: 0 <= k < |json.content(p)| ==> InDocument(json.content(p)[k], p, json);
    }
  }

  lemma KnownLine(line: string, original: string, reverse: map<string, string>, json: Json)
    ensures ClientLine(line, line, original, reverse, json)
      <==> forall p :: HasPayload(line, p) && json.valid(p) ==> ClientDocument(p, p, original, reverse, json)
  {
    hide TrimRight, PrefixLength, ClientDocument;
    var t := TrimRight(line);
    if "data:" <= t {
      var n := PrefixLength(t);
      LineParts(line, t, n);
      MiddleOf(t[..n], t[n..], line[|t|..]);
    }
  }

  lemma MiddleOf(a: string, x: string, b: string)
    ensures var s := a + x + b; s[..|a|] == a && s[|s| - |b|..] == b && s[|a|..|s| - |b|] == x
  {
  }

  /** A text is as the client should see it exactly when its names all are. */
  lemma KnownExactly(text: string, original: string, reverse: map<string, string>, json: Json)
    ensures ClientText(text, text, original, reverse, json) <==> AllKnown(text, original, reverse, json)
  {
    hide ClientDocument, ClientLine, ClientBlock, SplitAfter, HasPayload, InDocument;
    forall p | json.valid(p)
      ensures ClientDocument(p, p, original, reverse, json)
        <==> forall b: Block :: InDocument(b, p, json) ==> ClientBlock(b, original, reverse, json) == b
    {
      KnownDocument(p, original, reverse, json);
    }
    if json.valid(text) {
      assert IsPayload(text, text, json);
    } else {
      var lines := SplitAfter(text);
      forall k | 0 <= k < |lines|
        ensures ClientLine(lines[k], lines[k], original, reverse, json)
          <==> forall p :: HasPayload(lines[k], p) && json.valid(p) ==> ClientDocument(p, p, original, reverse, json)
      {
        KnownLine(lines[k], original, reverse, json);
      }
      if ClientText(text, text, original, reverse, json) {
        forall b: Block | BlockOf(b, text, json) ensures ClientBlock(b, original, reverse, json) == b {
          var p :| IsPayload(p, text, json) && json.valid(p) && InDocument(b, p, json);
          var k :| 0 <= k < |lines| && HasPayload(lines[k], p);
        }
      }
    }
  }

  // ---------- over whole runs ----------

  /** The host hands back the body it sent, or one with the same nameable tools. */
  ghost predicate HandedBack(translatedRequest: Body, r: Request) {
    KeyList(translatedRequest) == KeyList(Sent(r))
  }

  /** Request `i` of the run is still served by the key that request `t` admitted. */
  ghost predicate Served(rs: seq<Request>, t: nat, i: nat, hash: Hash) {
    && i < |rs| && Renaming(rs[i])
    && AdmittedAt(rs, t, CallOf(rs[i], hash).key, hash)
    && |AdmittedAfter(rs, t, hash)| < 2048
  }

  lemma MapServed(rs: seq<Request>, t: nat, i: nat, hash: Hash)
    requires NoCollisions(rs, hash) && PossibleRequests(rs) && Served(rs, t, i, hash) && Unshared(rs, i)
    ensures Made(rs[i])
    ensures ActsAs(StoreAfter(rs, hash).Get(CallOf(rs[i], hash).key), OwnNames(rs[i]), OwnMap(rs[i]))
    ensures OwnMap(rs[i]) != map[]
  {
    hide NoCollisions, Unshared, AdmittedAt, ActsAs, CallOf, StoreAfter, PossibleRequests, AdmittedAfter;
    PossibleRequestAt(rs, i);
    OwnMapIsBuilt(rs[i]);
    MapKeptExactly(rs, t, CallOf(rs[i], hash).key, hash);
    OwnMapFound(rs, i, hash);
  }

  lemma HandedBackKey(translatedRequest: Body, r: Request, hash: Hash)
    requires HandedBack(translatedRequest, r)
    ensures BodyKey(translatedRequest, hash) == CallOf(r, hash).key
  {
  }

  /** A reply to request `i` of a possible run: the key that request `t` admitted still
      serves it, no request with other names shares that key, and the host hands back
      the request as it was sent. */
  ghost predicate InService(obfuscate: bool, es: seq<Event>, t: nat, i: nat, translatedRequest: Body, hash: Hash) {
    var rs := Stored(obfuscate, es);
    && NoCollisions(rs, hash) && PossibleRequests(rs)
    && Served(rs, t, i, hash) && Unshared(rs, i)
    && HandedBack(translatedRequest, rs[i])
  }

  /** However requests and reconfigurations interleave: while fewer than 2048 keys were
      admitted since the one of request `i`, and no request with other names shares it,
      a reply to that request that spells `"tool_use"` is delivered with every alias of
      the request turned into its real name, in a whole document as in each line of a
      transcript, and with nothing else changed.  Any other reply is delivered as it is,
      which is wrong exactly when it has an alias in a block spelt with escapes. */
  lemma ReplyRestored(obfuscate: bool, es: seq<Event>, t: nat, i: nat, text: string, translatedRequest: Body,
                      original: string, hash: Hash, json: Json)
    requires Sound(json) && InService(obfuscate, es, t, i, translatedRequest, hash)
    ensures var r := Stored(obfuscate, es)[i];
      var reverse := ReverseMap(OwnNames(r), OwnMap(r));
      var out := Delivered(Run(obfuscate, es, hash).store, text, translatedRequest, original, hash, json);
      && (Contains(text, "\"tool_use\"") ==> ClientText(text, out, original, reverse, json))
      && (!Contains(text, "\"tool_use\"") ==>
            out == text && (ClientText(text, out, original, reverse, json) <==> AllKnown(text, original, reverse, json)))
  {
    var rs := Stored(obfuscate, es);
    assert NoCollisions(rs, hash) && PossibleRequests(rs) && Served(rs, t, i, hash) && Unshared(rs, i);
    assert HandedBack(translatedRequest, rs[i]);
    hide *;
    RunIsHistory(obfuscate, es, hash);
    ServedIndex(rs, t, i, hash);
    MapServed(rs, t, i, hash);
    HandedBackKey(translatedRequest, rs[i], hash);
    SoundParts(json);
    DeliveredCases(StoreAfter(rs, hash), text, translatedRequest, original, hash, json);
    var found := StoreAfter(rs, hash).Get(CallOf(rs[i], hash).key);
    var reverse := ReverseMap(OwnNames(rs[i]), OwnMap(rs[i]));
    FoundReverses(found, rs[i]);
    ExitWithMap(text, found, reverse);
    TextRestored(text, original, found, reverse, json);
    KnownExactly(text, original, reverse, json);
  }

  lemma ExitWithMap(text: string, rw: Option<Rewrite>, reverse: map<string, string>)
    requires Reverses(rw, reverse)
    ensures EarlyExit(text, rw) <==> !Contains(text, "\"tool_use\"")
  {
  }

  lemma ServedIndex(rs: seq<Request>, t: nat, i: nat, hash: Hash)
    requires Served(rs, t, i, hash)
    ensures i < |rs| && Renaming(rs[i])
  {
  }

  lemma SoundParts(json: Json)
    requires Sound(json)
    ensures EditsInPlace(json) && StaysOnLine(json)
  {
  }

  lemma FoundReverses(found: Option<Rewrite>, r: Request)
    requires Made(r) && Renaming(r) && OwnMap(r) != map[] && ActsAs(found, OwnNames(r), OwnMap(r))
    ensures Reverses(found, ReverseMap(OwnNames(r), OwnMap(r)))
  {
    hide Made, Lists, LongestFirst, ReverseMap;
    OwnMapIsBuilt(r);
    ReverseKeys(OwnNames(r), OwnMap(r));
  }

  /** And the alias of a declared name is delivered as that name: always up to 600
      names, beyond that if no other name shares the alias.  The name is as the library
      writes it. */
  lemma AliasComesBack(r: Request, n: string, original: string, json: Json)
    requires Made(r) && Renaming(r) && n in OwnMap(r)
    requires |OwnNames(r)| <= 600 || Injective(OwnMap(r))
    requires !Contains(original, json.quote(OwnMap(r)[n]))
    ensures ClientName(OwnMap(r)[n], original, ReverseMap(OwnNames(r), OwnMap(r)), json) == json.written(n)
  {
    hide IsRewriteOf, Contains, MimicableNames, PoolShaped, Distinct, ForwardOf;
    hide Injective, DynamicAliases, ReverseMap, OwnNames;
    OwnMapIsBuilt(r);
    if |OwnNames(r)| <= 600 {
      AliasesDistinct(OwnNames(r), true, r.available);
    }
    ReverseOfAlias(OwnNames(r), OwnMap(r), n);
  }

  lemma ReverseOfAlias(names: seq<string>, forward: map<string, string>, n: string)
    requires RenamesListed(forward, names) && Injective(forward) && n in forward
    ensures forward[n] in ReverseMap(names, forward) && ReverseMap(names, forward)[forward[n]] == n
  {
    ReverseIsInverse(names, forward);
  }

  /** The block is a tool_use block that names the alias of the declared name `n`. */
  ghost predicate Names(b: Block, r: Request, n: string, original: string, json: Json) {
    && b.blockType == "tool_use" && Renaming(r) && n in OwnMap(r) && b.name == OwnMap(r)[n]
    && (|OwnNames(r)| <= 600 || Injective(OwnMap(r)))
    && !Contains(original, json.quote(b.name))
  }

  lemma BlockComesBack(b: Block, r: Request, n: string, original: string, json: Json)
    requires Made(r) && Names(b, r, n, original, json)
    ensures ClientBlock(b, original, ReverseMap(OwnNames(r), OwnMap(r)), json) == b.(name := json.written(n))
  {
    hide Made, ReverseMap, OwnNames, OwnMap, Contains, Injective, ClientName;
    AliasComesBack(r, n, original, json);
  }

  /** Put together, for a message: such a block of its content is delivered as the same
      block with the name `n`. */
  lemma AliasDelivered(obfuscate: bool, es: seq<Event>, t: nat, i: nat, text: string, k: nat, n: string,
                       translatedRequest: Body, original: string, hash: Hash, json: Json)
    requires Sound(json) && InService(obfuscate, es, t, i, translatedRequest, hash)
    requires json.valid(text) && Contains(text, "\"tool_use\"") && k < |json.content(text)|
    requires Names(json.content(text)[k], Stored(obfuscate, es)[i], n, original, json)
    ensures var out := Delivered(Run(obfuscate, es, hash).store, text, translatedRequest, original, hash, json);
      && json.valid(out) && k < |json.content(out)|
      && json.content(out)[k] == json.content(text)[k].(name := json.written(n))
  {
    var rs := Stored(obfuscate, es);
    assert NoCollisions(rs, hash) && PossibleRequests(rs) && Served(rs, t, i, hash) && Unshared(rs, i);
    hide Contains, Sound, InService, Delivered, Run, Stored, NoCollisions, PossibleRequests;
    hide Served, Unshared, Made, OwnMap, Renaming, ClientBlock, Names;
    ServedIndex(rs, t, i, hash);
    MapServed(rs, t, i, hash);
    ReplyRestored(obfuscate, es, t, i, text, translatedRequest, original, hash, json);
    BlockComesBack(json.content(text)[k], rs[i], n, original, json);
  }

  /** The message with one tool_use block, named `a`, as JSON text. */
  function ToolUseMessage(a: string): string {
    "{\"content\":[{\"type\":" + "\"tool_use\"" + ",\"name\":\"" + a + "\"}]}"
  }

  lemma ContainsMiddle(u: string, pat: string, v: string, w: string, x: string)
    ensures Contains(u + pat + v + w + x, pat)
  {
    assert OccursAt(u + pat + v + w + x, |u|, pat);
  }

  /** For a request in service and each of its aliases, that message is delivered with
      the declared name. */
  lemma MessageDelivered(obfuscate: bool, es: seq<Event>, t: nat, i: nat, n: string, rest: string,
                         translatedRequest: Body, original: string, hash: Hash, json: Json)
    requires Sound(json) && InService(obfuscate, es, t, i, translatedRequest, hash)
    requires var r := Stored(obfuscate, es)[i];
      && n in OwnMap(r) && (|OwnNames(r)| <= 600 || Injective(OwnMap(r)))
      && !Contains(original, json.quote(OwnMap(r)[n]))
      && var text := ToolUseMessage(OwnMap(r)[n]);
         json.valid(text) && json.content(text) == [Block("tool_use", OwnMap(r)[n], rest)]
    ensures var text := ToolUseMessage(OwnMap(Stored(obfuscate, es)[i])[n]);
      var out := Delivered(Run(obfuscate, es, hash).store, text, translatedRequest, original, hash, json);
      json.valid(out) && json.frame(out) == json.frame(text)
      && json.content(out) == [Block("tool_use", json.written(n), rest)]
  {
    hide Contains, Sound, Delivered, Run, Stored, NoCollisions, PossibleRequests;
    hide Unshared, Made, OwnMap, OwnNames, HandedBack, ClientName, Injective, AdmittedAt, AdmittedAfter, CallOf;
    var r := Stored(obfuscate, es)[i];
    var a := OwnMap(r)[n];
    var text := ToolUseMessage(a);
    ContainsMiddle("{\"content\":[{\"type\":", "\"tool_use\"", ",\"name\":\"", a, "\"}]}");
    ReplyRestored(obfuscate, es, t, i, text, translatedRequest, original, hash, json);
    AliasDelivered(obfuscate, es, t, i, text, 0, n, translatedRequest, original, hash, json);
  }

  /** `out` is the line with a payload in place of `p` that differs from `p` in its
      content block, which is `b`. */
  ghost predicate LineWithBlock(line: string, out: string, p: string, b: Block, json: Json) {
    var t := TrimRight(line);
    var start, eol := |t| - |p|, line[|t|..];
    && 0 <= start && start + |eol| <= |out| && out[..start] == line[..start] && out[|out| - |eol|..] == eol
    && var q := out[start..|out| - |eol|];
       json.valid(q) && json.frame(q) == json.frame(p) && json.contentBlock(q) == Some(b)
  }

  /** And for a stream: the block that a "data:" line starts is. */
  lemma AliasDeliveredOnLine(obfuscate: bool, es: seq<Event>, t: nat, i: nat, line: string, p: string, n: string,
                             translatedRequest: Body, original: string, hash: Hash, json: Json)
    requires Sound(json) && InService(obfuscate, es, t, i, translatedRequest, hash)
    requires Piece(line) && !json.valid(line) && Contains(line, "\"tool_use\"")
    requires HasPayload(line, p) && json.valid(p) && json.contentBlock(p).Some?
    requires Names(json.contentBlock(p).value, Stored(obfuscate, es)[i], n, original, json)
    ensures var out := Delivered(Run(obfuscate, es, hash).store, line, translatedRequest, original, hash, json);
      LineWithBlock(line, out, p, json.contentBlock(p).value.(name := json.written(n)), json)
  {
    var rs := Stored(obfuscate, es);
    assert NoCollisions(rs, hash) && PossibleRequests(rs) && Served(rs, t, i, hash) && Unshared(rs, i);
    hide *;
    ServedIndex(rs, t, i, hash);
    MapServed(rs, t, i, hash);
    var reverse := ReverseMap(OwnNames(rs[i]), OwnMap(rs[i]));
    var out := Delivered(Run(obfuscate, es, hash).store, line, translatedRequest, original, hash, json);
    ReplyRestored(obfuscate, es, t, i, line, translatedRequest, original, hash, json);
    OneLineClient(line, out, original, reverse, json);
    BlockComesBack(json.contentBlock(p).value, rs[i], n, original, json);
    PayloadOfClientLine(line, out, p, original, reverse, json);
  }

  lemma PayloadOfClientLine(line: string, out: string, p: string, original: string, reverse: map<string, string>, json: Json)
    requires ClientLine(line, out, original, reverse, json)
    requires HasPayload(line, p) && json.valid(p) && json.contentBlock(p).Some?
    ensures LineWithBlock(line, out, p, ClientBlock(json.contentBlock(p).value, original, reverse, json), json)
  {
    hide TrimRight, PrefixLength, ClientBlock;
    var t := TrimRight(line);
    var n := PrefixLength(t);
    assert line[..n] == t[..n];
  }

  // ---------- a stream, line by line ----------

  /** For a line on its own, the client's text is the client's line. */
  lemma OneLineClient(line: string, out: string, original: string, reverse: map<string, string>, json: Json)
    requires Piece(line) && !json.valid(line) && ClientText(line, out, original, reverse, json)
    ensures ClientLine(line, out, original, reverse, json)
    ensures Piece(out) && (Ended(out) <==> Ended(line))
  {
    hide ClientLine, ClientDocument, SplitAfter;
    LinesOfPiece(line);
    SplitIsCut(out);
    var outLines := SplitAfter(out);
    if Ended(line) {
      NothingOnEmptyLine(outLines[1], original, reverse, json);
      var first := outLines[0];
      assert outLines == [first, ""] && outLines[1..] == [""] && [""][1..] == [];
      assert Concat([""]) == "" + "";
      assert Concat(outLines) == first + "" == first;
    } else {
      var first := outLines[0];
      assert outLines == [first] && outLines[1..] == [];
      assert Concat(outLines) == first + "" == first;
    }
  }

  lemma NothingOnEmptyLine(out: string, original: string, reverse: map<string, string>, json: Json)
    requires ClientLine("", out, original, reverse, json)
    ensures out == ""
  {
  }

  lemma {:induction false} StoredGrows(obfuscate: bool, es: seq<Event>, j: nat)
    requires j <= |es|
    ensures Stored(obfuscate, es[..j]) <= Stored(obfuscate, es)
    decreases |es| - j
  {
    if j == |es| {
      assert es[..j] == es;
    } else {
      assert es[..j + 1][..j] == es[..j];
      StoredGrows(obfuscate, es, j + 1);
    }
  }

  /** The lines of a stream as the hook is called for them: line `k` after the first
      `js[k]` events of the run, while request `i` is in service. */
  ghost predicate Streamed(obfuscate: bool, es: seq<Event>, t: nat, i: nat, lines: seq<string>, js: seq<nat>,
                           translatedRequest: Body, hash: Hash)
  {
    && |js| == |lines|
    && forall k :: 0 <= k < |js| ==> js[k] <= |es| && InService(obfuscate, es[..js[k]], t, i, translatedRequest, hash)
  }

  function DeliveredAt(obfuscate: bool, es: seq<Event>, j: nat, line: string, translatedRequest: Body, original: string,
                       hash: Hash, json: Json): string
    requires j <= |es|
  {
    Delivered(Run(obfuscate, es[..j], hash).store, line, translatedRequest, original, hash, json)
  }

  /** All of them, in the order of the lines. */
  function DeliveredStream(obfuscate: bool, es: seq<Event>, lines: seq<string>, js: seq<nat>, translatedRequest: Body,
                           original: string, hash: Hash, json: Json): (outs: seq<string>)
    requires |js| == |lines| && forall k :: 0 <= k < |js| ==> js[k] <= |es|
    ensures |outs| == |lines| && forall k :: 0 <= k < |lines| ==>
      outs[k] == DeliveredAt(obfuscate, es, js[k], lines[k], translatedRequest, original, hash, json)
  {
    seq(|js|, k requires 0 <= k < |js| =>
      DeliveredAt(obfuscate, es, js[k], lines[k], translatedRequest, original, hash, json))
  }

  lemma LineStreamed(obfuscate: bool, es: seq<Event>, t: nat, i: nat, j: nat, line: string, translatedRequest: Body,
                     original: string, hash: Hash, json: Json)
    requires Sound(json) && j <= |es| && InService(obfuscate, es[..j], t, i, translatedRequest, hash)
    requires Piece(line) && !json.valid(line)
    ensures i < |Stored(obfuscate, es)| && Renaming(Stored(obfuscate, es)[i])
    ensures var r := Stored(obfuscate, es)[i];
      var reverse := ReverseMap(OwnNames(r), OwnMap(r));
      var out := DeliveredAt(obfuscate, es, j, line, translatedRequest, original, hash, json);
      Contains(line, "\"tool_use\"") || AllKnown(line, original, reverse, json) ==>
        ClientLine(line, out, original, reverse, json) && Piece(out) && (Ended(out) <==> Ended(line))
  {
    var now, r := Stored(obfuscate, es[..j]), Stored(obfuscate, es[..j])[i];
    assert Served(now, t, i, hash);
    hide *;
    ServedIndex(now, t, i, hash);
    StoredGrows(obfuscate, es, j);
    assert Stored(obfuscate, es)[i] == now[i];
    var reverse := ReverseMap(OwnNames(r), OwnMap(r));
    var out := Delivered(Run(obfuscate, es[..j], hash).store, line, translatedRequest, original, hash, json);
    DeliveredAtIs(obfuscate, es, j, line, translatedRequest, original, hash, json);
    ReplyRestored(obfuscate, es[..j], t, i, line, translatedRequest, original, hash, json);
    if Contains(line, "\"tool_use\"") || AllKnown(line, original, reverse, json) {
      OneLineClient(line, out, original, reverse, json);
    }
  }

  lemma DeliveredAtIs(obfuscate: bool, es: seq<Event>, j: nat, line: string, translatedRequest: Body, original: string,
                      hash: Hash, json: Json)
    requires j <= |es|
    ensures DeliveredAt(obfuscate, es, j, line, translatedRequest, original, hash, json)
         == Delivered(Run(obfuscate, es[..j], hash).store, line, translatedRequest, original, hash, json)
  {
  }

  /** The lines of a transcript, delivered one by one at any points of the run, spell
      the transcript as the client should see it, if each line with an alias spells
      `"tool_use"`. */
  lemma StreamRestored(obfuscate: bool, es: seq<Event>, t: nat, i: nat, text: string, js: seq<nat>,
                       translatedRequest: Body, original: string, hash: Hash, json: Json)
    requires Sound(json) && !json.valid(text) && NoJson(SplitAfter(text), json.valid)
    requires Streamed(obfuscate, es, t, i, SplitAfter(text), js, translatedRequest, hash)
    requires i < |Stored(obfuscate, es)| && Renaming(Stored(obfuscate, es)[i])
    requires var r := Stored(obfuscate, es)[i];
      forall k :: 0 <= k < |SplitAfter(text)| ==>
        || Contains(SplitAfter(text)[k], "\"tool_use\"")
        || AllKnown(SplitAfter(text)[k], original, ReverseMap(OwnNames(r), OwnMap(r)), json)
    ensures var r := Stored(obfuscate, es)[i];
      var outs := DeliveredStream(obfuscate, es, SplitAfter(text), js, translatedRequest, original, hash, json);
      ClientText(text, Concat(outs), original, ReverseMap(OwnNames(r), OwnMap(r)), json)
  {
    hide Sound, Stored, InService, DeliveredAt, SplitAfter, Contains, AllKnown, ClientLine, ClientDocument, ReverseMap;
    hide Piece, Ended, Concat, Cut, OwnMap, OwnNames, Renaming;
    var lines := SplitAfter(text);
    var outs := DeliveredStream(obfuscate, es, lines, js, translatedRequest, original, hash, json);
    var reverse := ReverseMap(OwnNames(Stored(obfuscate, es)[i]), OwnMap(Stored(obfuscate, es)[i]));
    SplitIsCut(text);
    forall k | 0 <= k < |lines|
      ensures ClientLine(lines[k], outs[k], original, reverse, json)
      ensures Piece(outs[k]) && (Ended(outs[k]) <==> Ended(lines[k]))
    {
      PieceOfCut(lines, k);
      LineStreamed(obfuscate, es, t, i, js[k], lines[k], translatedRequest, original, hash, json);
    }
    MappedCut(lines, outs);
    SplitOfConcat(outs);
  }

  // ---------- when the map is gone ----------

  /** After 2048 other admissions, only the static aliases are undone: a request of at
      most five names does not notice, the aliases of a longer one stay. */
  lemma NameWithoutMap(r: Request, n: string, original: string, json: Json)
    requires Made(r) && Renaming(r) && n in OwnMap(r)
    requires !Contains(original, json.quote(OwnMap(r)[n]))
    ensures RealName(OwnMap(r)[n], original, None, json) == if |OwnNames(r)| <= 5 then n else OwnMap(r)[n]
  {
    hide IsRewriteOf, Contains, MimicableNames, UnaliasToolName, Distinct;
    OwnMapIsBuilt(r);
    if |OwnNames(r)| <= DYNAMIC_THRESHOLD {
      UnaliasInverse(n);
    } else {
      DynamicAliasPlain(r.available, n, LastIndex(OwnNames(r), n));
    }
  }

  lemma DynamicAliasPlain(available: seq<string>, n: string, i: nat)
    requires Arrangement(available)
    ensures UnaliasToolName(DynamicAlias(available, n, i)) == DynamicAlias(available, n, i)
  {
    var p, rest := available[i % POOL_SIZE], Head(n) + TwoDigits(i);
    AliasParts(available, n, i);
    assert PoolShaped(p);
    FirstDigit(i);
    forall r: StaticRule ensures !(r.Replacement() <= p + rest) {
      NotStatic(r, p, Head(n), TwoDigits(i));
    }
    UnaliasNone([Sessions, Session, Mcp], DynamicAlias(available, n, i));
  }

  /** Even after a prefix "cc_" the digits come too early. */
  lemma NotStatic(r: StaticRule, p: string, h: string, d: string)
    requires PoolShaped(p) && |h| <= 3 && d != "" && '0' <= d[0] <= '9'
    ensures !(r.Replacement() <= p + (h + d))
  {
    var a, s := p + (h + d), r.Replacement();
    FirstUnderscore(p, h + d);
    assert a[|p| + |h|] == d[0];
    assert |s| >= 7 && s[0] == 'c' && s[1] == 'c' && s[2] == '_';
    assert forall k :: 3 <= k < 7 ==> !('0' <= s[k] <= '9');
  }

  lemma FirstDigit(i: nat)
    ensures TwoDigits(i) != "" && '0' <= TwoDigits(i)[0] <= '9'
  {
    DecimalBegins(i);
  }

  lemma {:induction false} DecimalBegins(i: nat)
    ensures '0' <= Decimal(i)[0] <= '9'
  {
    if i >= 10 {
      DecimalBegins(i / 10);
    }
  }

  lemma ExitWithoutMap(text: string)
    ensures EarlyExit(text, None) <==>
      !(Contains(text, "\"tool_use\"")
        && (Contains(text, "cc_sess_") || Contains(text, "cc_ses_") || Contains(text, "cc_mcp_")))
  {
    hide Contains;
  }

  lemma ReplyAfterEviction(obfuscate: bool, es: seq<Event>, t: nat, i: nat, text: string, translatedRequest: Body,
                           original: string, hash: Hash, json: Json)
    requires Sound(json)
    requires var rs := Stored(obfuscate, es);
      && i < |rs| && Renaming(rs[i]) && AdmittedAt(rs, t, CallOf(rs[i], hash).key, hash)
      && CallOf(rs[i], hash).key !in AdmittedAfter(rs, t, hash) && |AdmittedAfter(rs, t, hash)| >= 2048
    requires HandedBack(translatedRequest, Stored(obfuscate, es)[i])
    ensures Delivered(Run(obfuscate, es, hash).store, text, translatedRequest, original, hash, json)
         == if Contains(text, "\"tool_use\"")
                && (Contains(text, "cc_sess_") || Contains(text, "cc_ses_") || Contains(text, "cc_mcp_"))
            then Restored(text, original, None, json) else text
  {
    hide *;
    ExitWithoutMap(text);
    var rs := Stored(obfuscate, es);
    RunIsHistory(obfuscate, es, hash);
    MapKeptExactly(rs, t, CallOf(rs[i], hash).key, hash);
    HandedBackKey(translatedRequest, rs[i], hash);
    DeliveredCases(StoreAfter(rs, hash), text, translatedRequest, original, hash, json);
  }
}
