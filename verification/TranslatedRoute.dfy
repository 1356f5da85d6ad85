/** Translated routes: names are aliased after the host has translated a request, and
    restored in the tool_use blocks of each response line before it is translated back. */
module TranslatedRoute {
  import opened Text
  import opened ToolNames
  import opened RewriteMap
  import opened RoundTrip
  import opened RequestBody
  import opened RewriteStore
  import opened SseLines
  import opened ToolsKey

  // ---------- one name ----------

  /** First match in the pairs; without a map, the static rules. */
  function UnaliasTranslatedName(name: string, rw: Option<Rewrite>): string {
    if Empty(rw) then UnaliasToolName(name) else FirstMatch(name, rw.value.reverseOrdered)
  }

  function FirstMatch(name: string, pairs: seq<(string, string)>): string {
    if pairs == [] then name
    else if pairs[0].0 == name then pairs[0].1
    else FirstMatch(name, pairs[1..])
  }

  /** The pairs act as the map they list, whatever their order. */
  lemma {:induction false} FirstMatchIsLookup(name: string, pairs: seq<(string, string)>, m: map<string, string>)
    requires Lists(pairs, m)
    ensures FirstMatch(name, pairs) == if name in m then m[name] else name
    decreases |pairs|
  {
    if pairs != [] {
      if pairs[0].0 != name {
        var rest := m - {pairs[0].0};
        forall a | a in rest ensures (a, rest[a]) in pairs[1..] {
          assert (a, m[a]) in pairs;
        }
        FirstMatchIsLookup(name, pairs[1..], rest);
      }
    }
  }

  predicate ContainsStaticAlias(data: string) {
    Contains(data, Sessions.Replacement()) || Contains(data, Session.Replacement()) || Contains(data, Mcp.Replacement())
  }

  // ---------- one JSON document ----------

  /** The JSON library, as far as it is used: which texts are documents, the two
      places where tool_use blocks are looked for, the edit of a name at such a
      place, what a name reads as once it has been written, and the encoding of a
      string.  `frame` is everything else in a document. */
  datatype Json = Json(
    valid: string -> bool,
    contentBlock: string -> Option<Block>,
    content: string -> seq<Block>,
    frame: string -> string,
    setContentBlockName: (string, string) -> string,
    setContentName: (string, nat, string) -> string,
    written: string -> string,
    quote: string -> string)

  predicate IsToolUse(b: Block) {
    b.blockType == "tool_use"
  }

  /** Editing the name of a tool_use block changes that name and nothing else. */
  ghost predicate EditsInPlace(json: Json) {
    && (forall t, n :: json.valid(t) && json.contentBlock(t).Some? && IsToolUse(json.contentBlock(t).value) ==>
          var u := json.setContentBlockName(t, n);
          && json.valid(u) && json.content(u) == json.content(t) && json.frame(u) == json.frame(t)
          && json.contentBlock(u) == Some(json.contentBlock(t).value.(name := json.written(n))))
    && (forall t, i: nat, n :: json.valid(t) && i < |json.content(t)| && IsToolUse(json.content(t)[i]) ==>
          var u := json.setContentName(t, i, n);
          && json.valid(u) && json.contentBlock(u) == json.contentBlock(t) && json.frame(u) == json.frame(t)
          && json.content(u) == json.content(t)[i := json.content(t)[i].(name := json.written(n))])
  }

  /** Nor does it bring a newline into the text. */
  ghost predicate StaysOnLine(json: Json) {
    && (forall t, n :: json.valid(t) && json.contentBlock(t).Some? && IsToolUse(json.contentBlock(t).value) ==>
          '\n' !in t ==> '\n' !in json.setContentBlockName(t, n))
    && (forall t, i: nat, n :: json.valid(t) && i < |json.content(t)| && IsToolUse(json.content(t)[i]) ==>
          '\n' !in t ==> '\n' !in json.setContentName(t, i, n))
  }

  /** All that is asked of the library. */
  ghost predicate Sound(json: Json) {
    EditsInPlace(json) && StaysOnLine(json) && !json.valid("")
  }

  predicate InDocument(b: Block, t: string, json: Json) {
    b in json.content(t) || json.contentBlock(t) == Some(b)
  }

  const TOOL_USE := "\"tool_use\""

  /** The name a block is given: its real one, unless the client itself sent the alias. */
  function RealName(name: string, original: string, rw: Option<Rewrite>, json: Json): string {
    if Contains(original, json.quote(name)) then name else UnaliasTranslatedName(name, rw)
  }

  /** The block is one whose name is edited. */
  predicate Edited(b: Block, original: string, rw: Option<Rewrite>, json: Json) {
    IsToolUse(b) && RealName(b.name, original, rw, json) != b.name
  }

  function RestoredBlock(b: Block, original: string, rw: Option<Rewrite>, json: Json): Block {
    if Edited(b, original, rw, json) then b.(name := json.written(RealName(b.name, original, rw, json))) else b
  }

  /** The edits at positions `i` and up of the content list of `root`. */
  function EditContent(out: string, root: seq<Block>, i: nat, original: string, rw: Option<Rewrite>, json: Json): string
    decreases |root| - i
  {
    if i >= |root| then out
    else
      var next := if Edited(root[i], original, rw, json)
                  then json.setContentName(out, i, RealName(root[i].name, original, rw, json)) else out;
      EditContent(next, root, i + 1, original, rw, json)
  }

  function EditContentBlock(out: string, original: string, rw: Option<Rewrite>, json: Json): string {
    match json.contentBlock(out)
    case None => out
    case Some(block) =>
      if Edited(block, original, rw, json)
      then json.setContentBlockName(out, RealName(block.name, original, rw, json)) else out
  }

  function RestoredJson(payload: string, original: string, rw: Option<Rewrite>, json: Json): string {
    if !json.valid(payload) then payload
    else EditContent(EditContentBlock(payload, original, rw, json), json.content(payload), 0, original, rw, json)
  }

  /** The closure over `out`, applied to the one block and then to each of the list. */
  method RestoreToolUseNamesInJSON(payload: string, original: string, rw: Option<Rewrite>, json: Json) returns (out: string)
    ensures out == RestoredJson(payload, original, rw, json)
  {
    out := payload;
    if !json.valid(payload) {
      return;
    }
    if json.contentBlock(payload).Some? {
      var block := json.contentBlock(payload).value;
      if block.blockType == "tool_use" {
        var realName := UnaliasTranslatedName(block.name, rw);
        if !(realName == block.name || Contains(original, json.quote(block.name))) {
          out := json.setContentBlockName(out, realName);
        }
      }
    }
    var root := json.content(payload);
    for i := 0 to |root|
      invariant RestoredJson(payload, original, rw, json) == EditContent(out, root, i, original, rw, json)
    {
      if root[i].blockType != "tool_use" {
        continue;
      }
      var realName := UnaliasTranslatedName(root[i].name, rw);
      if realName == root[i].name || Contains(original, json.quote(root[i].name)) {
        continue;
      }
      out := json.setContentName(out, i, realName);
    }
  }

  lemma {:induction false} ContentEdited(out: string, root: seq<Block>, i: nat, original: string,
                                         rw: Option<Rewrite>, json: Json)
    requires EditsInPlace(json) && json.valid(out) && i <= |root| == |json.content(out)|
    requires forall k :: i <= k < |root| ==> json.content(out)[k] == root[k]
    ensures var r := EditContent(out, root, i, original, rw, json);
      && json.valid(r) && json.frame(r) == json.frame(out) && json.contentBlock(r) == json.contentBlock(out)
      && |json.content(r)| == |root|
      && (forall k :: 0 <= k < i ==> json.content(r)[k] == json.content(out)[k])
      && (forall k :: i <= k < |root| ==> json.content(r)[k] == RestoredBlock(root[k], original, rw, json))
    decreases |root| - i
  {
    hide RealName;
    if i < |root| {
      var next := if Edited(root[i], original, rw, json)
                  then json.setContentName(out, i, RealName(root[i].name, original, rw, json)) else out;
      ContentEdited(next, root, i + 1, original, rw, json);
    }
  }

  /** Whatever map the lookup returned: only names of tool_use blocks change, and each
      becomes its real name unless the client's own request spells it. */
  lemma OnlyToolUseNamesChange(payload: string, original: string, rw: Option<Rewrite>, json: Json)
    requires EditsInPlace(json) && json.valid(payload)
    ensures var r := RestoredJson(payload, original, rw, json);
      && json.valid(r) && json.frame(r) == json.frame(payload)
      && json.content(r) == MapSeq(json.content(payload), b => RestoredBlock(b, original, rw, json))
      && json.contentBlock(r) == (if json.contentBlock(payload).Some?
                                  then Some(RestoredBlock(json.contentBlock(payload).value, original, rw, json)) else None)
  {
    ContentEdited(EditContentBlock(payload, original, rw, json), json.content(payload), 0, original, rw, json);
  }

  /** The three fates of a tool_use name when the request's own map is found. */
  lemma NameRestored(name: string, original: string, rw: Rewrite, reverse: map<string, string>, json: Json)
    requires rw.forward != map[] && Lists(rw.reverseOrdered, reverse)
    ensures Contains(original, json.quote(name)) ==> RealName(name, original, Some(rw), json) == name
    ensures !Contains(original, json.quote(name)) && name in reverse ==>
      RealName(name, original, Some(rw), json) == reverse[name]
    ensures name !in reverse ==> RealName(name, original, Some(rw), json) == name
  {
    FirstMatchIsLookup(name, rw.reverseOrdered, reverse);
  }

  lemma UnaliasTwice(name: string)
    ensures UnaliasToolName(UnaliasToolName(name)) == UnaliasToolName(name)
  {
    if r: StaticRule :| r.Replacement() <= name {
      UnaliasBy([Sessions, Session, Mcp], r, name);
      var origin := Unrename(r, name);
      assert origin[0] == r.Prefix()[0] != 'c';
      forall q: StaticRule ensures !(q.Replacement() <= origin) {
        assert q.Replacement()[0] == 'c';
      }
      UnaliasNone([Sessions, Session, Mcp], origin);
    } else {
      UnaliasNone([Sessions, Session, Mcp], name);
    }
  }

  /** A real name is nobody's alias: with a map because no alias is declared, without
      one because no static prefix begins like a replacement. */
  lemma RealNameStays(name: string, original: string, rw: Option<Rewrite>, json: Json,
                      names: seq<string>, dynamic: Option<map<string, string>>)
    requires rw.Some? ==> IsRewriteOf(rw, names, dynamic)
    ensures RealName(RealName(name, original, rw, json), original, rw, json) == RealName(name, original, rw, json)
  {
    hide Contains, SanitizeToolName, UnaliasToolName;
    if Empty(rw) {
      UnaliasTwice(name);
    } else {
      var reverse := ReverseMap(names, rw.value.forward);
      ReverseKeys(names, rw.value.forward);
      FirstMatchIsLookup(name, rw.value.reverseOrdered, reverse);
      FirstMatchIsLookup(UnaliasTranslatedName(name, rw), rw.value.reverseOrdered, reverse);
    }
  }

  /** The names edited into the document read as they were meant. */
  ghost predicate Legible(t: string, original: string, rw: Option<Rewrite>, json: Json) {
    forall b: Block :: InDocument(b, t, json) && Edited(b, original, rw, json) ==>
      json.written(RealName(b.name, original, rw, json)) == RealName(b.name, original, rw, json)
  }

  /** Restoring again changes nothing, whether a map was found or not. */
  lemma RestoreAgain(payload: string, original: string, rw: Option<Rewrite>, json: Json,
                     names: seq<string>, dynamic: Option<map<string, string>>)
    requires EditsInPlace(json) && json.valid(payload) && Legible(payload, original, rw, json)
    requires rw.Some? ==> IsRewriteOf(rw, names, dynamic)
    ensures var once := RestoredJson(payload, original, rw, json);
      RestoredJson(once, original, rw, json) == once
  {
    hide RestoredJson, EditsInPlace, RealName, IsRewriteOf;
    OnlyToolUseNamesChange(payload, original, rw, json);
    var once := RestoredJson(payload, original, rw, json);
    forall b: Block | InDocument(b, payload, json)
      ensures !Edited(RestoredBlock(b, original, rw, json), original, rw, json)
    {
      RealNameStays(b.name, original, rw, json, names, dynamic);
    }
    NothingToRestore(once, original, rw, json);
  }

  /** A document without a block to edit comes back as it is. */
  lemma NothingToRestore(t: string, original: string, rw: Option<Rewrite>, json: Json)
    requires forall b: Block :: InDocument(b, t, json) ==> !Edited(b, original, rw, json)
    ensures RestoredJson(t, original, rw, json) == t
  {
    hide Edited;
    forall k | 0 <= k < |json.content(t)| ensures !Edited(json.content(t)[k], original, rw, json) {
      assert InDocument(json.content(t)[k], t, json);
    }
    NothingToEdit(t, json.content(t), 0, original, rw, json);
  }

  lemma {:induction false} NothingToEdit(out: string, root: seq<Block>, i: nat, original: string,
                                         rw: Option<Rewrite>, json: Json)
    requires forall k :: i <= k < |root| ==> !Edited(root[k], original, rw, json)
    ensures EditContent(out, root, i, original, rw, json) == out
    decreases |root| - i
  {
    hide Edited;
    if i < |root| {
      NothingToEdit(out, root, i + 1, original, rw, json);
    }
  }

  /** A block edited so that it shows: the document is another one. */
  lemma RestoredDiffers(t: string, b: Block, original: string, rw: Option<Rewrite>, json: Json)
    requires EditsInPlace(json) && json.valid(t) && InDocument(b, t, json)
    requires RestoredBlock(b, original, rw, json) != b
    ensures RestoredJson(t, original, rw, json) != t
  {
    hide RestoredBlock, RestoredJson, EditsInPlace;
    OnlyToolUseNamesChange(t, original, rw, json);
  }

  // ---------- the hooks ----------

  /** A normalised request: its body, the pool as its shuffle left it, and its map. */
  datatype Request = Request(body: Body, available: seq<string>, rw: Option<Rewrite>)

  /** The body sent on. */
  function Sent(r: Request): Body {
    if Empty(r.rw) then r.body else RenamedBody(r.body, r.rw.value.forward)
  }

  /** The put of a normalised request: its map under the key of its aliased names. */
  function CallOf(r: Request, hash: Hash): Call {
    Call(BodyKey(Sent(r), hash), r.rw)
  }

  function BodyKey(body: Body, hash: Hash): string {
    KeyOfNames(KeyList(body), hash)
  }

  ghost predicate Made(r: Request) {
    && Arrangement(r.available)
    && IsRewriteOf(r.rw, ToolNamesOf(r.body), DynamicAliases(ToolNamesOf(r.body), true, r.available))
  }

  /** A call of the host that may change state; `translated` says that the host turned
      another format into Claude's. */
  datatype Event = Configure(obfuscate: bool) | Normalize(translated: bool, request: Request)

  datatype State = State(obfuscate: bool, store: Store)

  /** The step aliases the names of its request and puts the map. */
  predicate Puts(obfuscate: bool, e: Event) {
    e.Normalize? && e.translated && obfuscate
  }

  function Step(s: State, e: Event, hash: Hash): State {
    if e.Configure? then s.(obfuscate := e.obfuscate)
    else if Puts(s.obfuscate, e) then s.(store := s.store.Put(CallOf(e.request, hash).key, e.request.rw))
    else s
  }

  /** The text with every payload restored, however it is laid out. */
  function Restored(text: string, original: string, rw: Option<Rewrite>, json: Json): string {
    RestoreText(text, json.valid, payload => RestoredJson(payload, original, rw, json))
  }

  /** The hook gives up before it looks at any line. */
  predicate EarlyExit(text: string, rw: Option<Rewrite>) {
    !Contains(text, TOOL_USE) || (Empty(rw) && !ContainsStaticAlias(text))
  }

  /** What the response hook returns for the map it found; empty means "leave as is". */
  function ReplyWith(rw: Option<Rewrite>, text: string, original: string, json: Json): string {
    if EarlyExit(text, rw) || Restored(text, original, rw, json) == text then "" else Restored(text, original, rw, json)
  }

  function NormalizedReply(store: Store, text: string, translatedRequest: Body, original: string,
                           hash: Hash, json: Json): string
  {
    ReplyWith(store.Get(BodyKey(translatedRequest, hash)), text, original, json)
  }

  /** What the host translates back for the client. */
  function Delivered(store: Store, text: string, translatedRequest: Body, original: string, hash: Hash, json: Json): string {
    var reply := NormalizedReply(store, text, translatedRequest, original, hash, json);
    if reply == "" then text else reply
  }

  class Normalizer {
    var obfuscate: bool
    const translatedRewrites: BoundedRewriteStore

    ghost function Model(): State
      reads this, translatedRewrites
    {
      State(obfuscate, translatedRewrites.Model())
    }

    constructor (obfuscate: bool)
      ensures fresh(translatedRewrites) && Model() == State(obfuscate, After(STORE_CAPACITY, []))
    {
      this.obfuscate := obfuscate;
      translatedRewrites := new BoundedRewriteStore(STORE_CAPACITY);
    }

    method Configure(obfuscate: bool)
      modifies this
      ensures forall hash :: Model() == Step(old(Model()), Event.Configure(obfuscate), hash)
    {
      this.obfuscate := obfuscate;
    }

    method NormalizeRequest(translated: bool, body: Body, shuffle: Shuffler, hash: Hash)
      returns (reply: Option<Body>, ghost r: Request)
      requires Arranges(shuffle)
      modifies translatedRewrites
      ensures r.body == body && Made(r)
      ensures reply == if translated && obfuscate && !Empty(r.rw) then Some(Sent(r)) else None
      ensures Model() == Step(old(Model()), Normalize(translated, r), hash)
    {
      hide IsRewriteOf, DynamicAliases, MimicableNames, RenamedBody, KeyNames, PoolShaped, Distinct, KeyOfNames;
      var rw := BuildToolNameRewriteFromBody(body, true, shuffle);
      r := Request(body, shuffle(ToolNamesOf(body)), rw);
      if !translated || !obfuscate {
        return None, r;
      }
      if Empty(rw) {
        return None, r;
      }
      var renamed := ApplyToolNameRewriteToBody(body, rw);
      var key := TranslatedToolsKey(renamed, hash);
      translatedRewrites.Put(key, rw);
      return Some(renamed), r;
    }

    method NormalizeResponseBefore(translated: bool, text: string, translatedRequest: Body, original: string,
                                   hash: Hash, json: Json)
      returns (reply: string)
      ensures reply == if translated then NormalizedReply(Model().store, text, translatedRequest, original, hash, json) else ""
    {
      if !translated {
        return "";
      }
      if !Contains(text, TOOL_USE) {
        return "";
      }
      var key := TranslatedToolsKey(translatedRequest, hash);
      var rw := translatedRewrites.Get(key);
      if Empty(rw) && !ContainsStaticAlias(text) {
        return "";
      }
      var restored := RestoreToolUseNames(text, json.valid, payload => RestoredJson(payload, original, rw, json));
      if restored == text {
        return "";
      }
      return restored;
    }
  }
}
