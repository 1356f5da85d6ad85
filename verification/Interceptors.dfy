/** The request, response and stream hooks: one map per request, found again
    through the bounded store while the steps of other requests interleave. */
module Interceptors {
  import opened Text
  import opened Identifiers
  import opened ToolNames
  import opened RewriteMap
  import opened RoundTrip
  import opened StaticFallback
  import opened RestoreBytes
  import opened RequestBody
  import opened RewriteStore

  const HEADER_INIT_INDEX := -1

  // ---------- correlation keys ----------

  /** strconv.FormatUint(n, 16) */
  function Hex(n: nat): (s: string)
    ensures s != "" && forall k :: 0 <= k < |s| ==> '0' <= s[k] <= '9' || 'a' <= s[k] <= 'f'
  {
    if n < 16 then [HexDigit(n)] else Hex(n / 16) + [HexDigit(n % 16)]
  }

  function HexDigit(d: nat): char
    requires d < 16
  {
    "0123456789abcdef"[d]
  }

  lemma HexDigitInjective(c: nat, d: nat)
    requires c < 16 && d < 16 && HexDigit(c) == HexDigit(d)
    ensures c == d
  {
  }

  /** A text of lower-case hexadecimal digits, read as a number. */
  function HexNumber(s: string): int {
    if s == "" then 0
    else
      var c := s[|s| - 1];
      16 * HexNumber(s[..|s| - 1]) + if '0' <= c <= '9' then c as int - '0' as int else c as int - 'a' as int + 10
  }

  lemma HexDigitReads(d: nat)
    requires d < 16
    ensures HexNumber([HexDigit(d)]) == d && (HexDigit(d) == '0' <==> d == 0)
  {
  }

  lemma {:induction false} HexReads(n: nat)
    ensures HexNumber(Hex(n)) == n && (n > 0 ==> Hex(n)[0] != '0')
  {
    hide HexDigit;
    if n < 16 {
      HexDigitReads(n);
    } else {
      HexReads(n / 16);
      HexDigitReads(n % 16);
      assert Hex(n)[..|Hex(n)| - 1] == Hex(n / 16);
    }
  }

  /** The lifecycle id when the host sends one, else the signature of the body. */
  function RewriteKey(id: string, signature: nat): (key: string)
    ensures key != ""
  {
    if id != "" then "id:" + id else Hex(signature)
  }

  lemma {:induction false} HexInjective(m: nat, n: nat)
    requires Hex(m) == Hex(n)
    ensures m == n
  {
    hide HexDigit;
    var s := Hex(m);
    if m >= 16 && n >= 16 {
      assert s[..|s| - 1] == Hex(m / 16) == Hex(n / 16);
      HexInjective(m / 16, n / 16);
      HexDigitInjective(m % 16, n % 16);
    } else if m < 16 && n < 16 {
      HexDigitInjective(m, n);
    }
  }

  /** Two calls share a key exactly when they carry one id, or no id and one signature. */
  lemma KeysApart(id: string, sig: nat, id2: string, sig2: nat)
    ensures RewriteKey(id, sig) == RewriteKey(id2, sig2) <==> id == id2 && (id == "" ==> sig == sig2)
  {
    assert forall k: nat :: Hex(k)[0] != 'i';
    if RewriteKey(id, sig) == RewriteKey(id2, sig2) {
      assert id != "" ==> RewriteKey(id, sig)[0] == 'i';
      assert id2 != "" ==> RewriteKey(id2, sig2)[0] == 'i';
      if id != "" {
        assert RewriteKey(id, sig)[3..] == id && RewriteKey(id2, sig2)[3..] == id2;
      } else {
        HexInjective(sig, sig2);
      }
    }
  }

  // ---------- the protocol as a state machine ----------

  /** A call of the host.  `signature` is the hash of body and headers, `native`
      whether the source format is Anthropic's, `rw` the map the builder made. */
  datatype Event =
    | Configure(obfuscate: bool)
    | Forward(id: string, signature: nat, native: bool, body: Body, rw: Option<Rewrite>)
    | Response(id: string, signature: nat, text: string)
    | Chunk(id: string, signature: nat, index: int, text: string)

  datatype State = State(obfuscate: bool, store: Store)

  /** The step's map is one the builder may make when the shuffle leaves `available`. */
  ghost predicate Possible(e: Event, available: seq<string>) {
    && e.Forward? && Arrangement(available)
    && var names := ToolNamesOf(e.body);
       IsRewriteOf(e.rw, names, DynamicAliases(names, e.body.messages.Some?, available))
  }

  /** The forward step stores its map: a native /v1/messages body, names obfuscated. */
  predicate Stores(obfuscate: bool, e: Event) {
    e.Forward? && e.native && e.body.messages.Some? && obfuscate
  }

  function Step(s: State, e: Event): State {
    if e.Configure? then s.(obfuscate := e.obfuscate)
    else if Stores(s.obfuscate, e) then s.(store := s.store.Put(RewriteKey(e.id, e.signature), e.rw))
    else s
  }

  /** The body the upstream receives. */
  function UpstreamBody(s: State, e: Event): Body
    requires e.Forward?
  {
    if e.native && s.obfuscate && !Empty(e.rw) then RenamedBody(e.body, e.rw.value.forward) else e.body
  }

  function Restored(text: string, rw: Option<Rewrite>): string {
    if rw.Some? then RestoreInTurn(text, rw.value.reverseOrdered)
    else UndoTogether(text, {Sessions, Session, Mcp})
  }

  /** A response, or a chunk of its stream with any index; -1 only announces the headers. */
  predicate IsReply(e: Event) {
    e.Response? || (e.Chunk? && e.index != -1)
  }

  /** The two calls belong to one request: one id or, if the host sends none, one signature. */
  predicate SameCall(e: Event, f: Event) {
    !e.Configure? && !f.Configure? && e.id == f.id && (e.id == "" ==> e.signature == f.signature)
  }

  /** What a reply is delivered as when no map is found for it: only a host that sends
      no id gets the static aliases undone. */
  function WithoutMap(obfuscate: bool, e: Event): string
    requires e.Response? || e.Chunk?
  {
    if e.id == "" && obfuscate then UndoTogether(e.text, {Sessions, Session, Mcp}) else e.text
  }

  /** The replacement text of a response hook; empty means "leave as is". */
  function ReplyText(s: State, e: Event): string
    requires e.Response? || e.Chunk?
  {
    var rw := s.store.Get(RewriteKey(e.id, e.signature));
    if e.Chunk? && (e.index == HEADER_INIT_INDEX || e.text == "") then ""
    else if rw.None? && (e.id != "" || !s.obfuscate) then ""
    else if Restored(e.text, rw) != e.text then Restored(e.text, rw)
    else ""
  }

  /** What the client receives. */
  function Delivered(s: State, e: Event): string
    requires e.Response? || e.Chunk?
  {
    if ReplyText(s, e) == "" then e.text else ReplyText(s, e)
  }

  function Initial(obfuscate: bool): State {
    State(obfuscate, After(STORE_CAPACITY, []))
  }

  function Run(obfuscate: bool, es: seq<Event>): State {
    if es == [] then Initial(obfuscate) else Step(Run(obfuscate, es[..|es| - 1]), es[|es| - 1])
  }

  // ---------- the hooks ----------

  predicate NamesNonEmpty(rw: Rewrite) {
    forall k :: 0 <= k < |rw.reverseOrdered| ==> rw.reverseOrdered[k].1 != ""
  }

  lemma BuiltNamesNonEmpty(rw: Rewrite, body: Body, dynamic: Option<map<string, string>>)
    requires IsRewriteOf(Some(rw), ToolNamesOf(body), dynamic)
    ensures NamesNonEmpty(rw)
  {
    ReverseKeys(ToolNamesOf(body), rw.forward);
  }

  class Plugin {
    var obfuscate: bool
    const store: BoundedRewriteStore

    ghost function Model(): State
      reads this, store
    {
      State(obfuscate, store.Model())
    }

    ghost predicate Valid()
      reads this, store
    {
      forall k :: k in store.items ==> NamesNonEmpty(store.items[k])
    }

    constructor (obfuscate: bool)
      ensures Valid() && fresh(store) && Model() == Initial(obfuscate)
    {
      this.obfuscate := obfuscate;
      this.store := new BoundedRewriteStore(STORE_CAPACITY);
    }

    method Configure(obfuscate: bool)
      requires Valid()
      modifies this
      ensures Valid() && Model() == Step(old(Model()), Event.Configure(obfuscate))
    {
      this.obfuscate := obfuscate;
    }

    method InterceptRequestBefore(id: string, signature: nat, native: bool, body: Body, shuffle: Shuffler)
      returns (upstream: Body, ghost e: Event)
      requires Valid() && Arranges(shuffle)
      modifies store
      ensures Valid()
      ensures e.Forward? && e.id == id && e.signature == signature && e.native == native && e.body == body
      ensures Possible(e, shuffle(ToolNamesOf(body)))
      ensures Model() == Step(old(Model()), e)
      ensures upstream == UpstreamBody(old(Model()), e)
    {
      hide IsRewriteOf, DynamicAliases, MimicableNames, RenamedBody;
      var rw := BuildToolNameRewriteFromBody(body, body.messages.Some?, shuffle);
      e := Forward(id, signature, native, body, rw);
      upstream := body;
      if !native {
        return;
      }
      if obfuscate {
        upstream := ApplyToolNameRewriteToBody(body, rw);
      }
      if body.messages.Some? && obfuscate && !Empty(rw) {
        Remember(RewriteKey(id, signature), body, rw, DynamicAliases(ToolNamesOf(body), true, shuffle(ToolNamesOf(body))));
      }
    }

    method Remember(key: string, body: Body, rw: Option<Rewrite>, ghost dynamic: Option<map<string, string>>)
      requires Valid() && key != "" && !Empty(rw) && IsRewriteOf(rw, ToolNamesOf(body), dynamic)
      modifies store
      ensures Valid() && store.Model() == old(store.Model()).Put(key, rw)
    {
      BuiltNamesNonEmpty(rw.value, body, dynamic);
      PutItems(store.Model(), key, rw);
      store.Put(key, rw);
    }

    method InterceptResponse(id: string, signature: nat, text: string, rules: seq<StaticRule>) returns (reply: string)
      requires Valid() && RangeOrder(rules)
      ensures reply == ReplyText(Model(), Response(id, signature, text))
    {
      var rw := store.Get(RewriteKey(id, signature));
      if rw.None? && (id != "" || !obfuscate) {
        return "";
      }
      var restored := RestoreToolNamesInBytes(text, rw, rules);
      if restored != text {
        return restored;
      }
      return "";
    }

    method InterceptStreamChunk(id: string, signature: nat, index: int, text: string, rules: seq<StaticRule>)
      returns (reply: string)
      requires Valid() && RangeOrder(rules)
      ensures reply == ReplyText(Model(), Chunk(id, signature, index, text))
    {
      if index == HEADER_INIT_INDEX || |text| == 0 {
        return "";
      }
      var rw := store.Get(RewriteKey(id, signature));
      if rw.None? && (id != "" || !obfuscate) {
        return "";
      }
      var restored := RestoreToolNamesInBytes(text, rw, rules);
      if restored != text {
        return restored;
      }
      return "";
    }
  }

  /** A put brings no other map into the store. */
  lemma PutItems(s: Store, key: string, rw: Option<Rewrite>)
    requires s.Accepts(key, rw)
    ensures forall k :: k in s.Put(key, rw).items ==>
      (k == key && s.Put(key, rw).items[k] == rw.value) || (k in s.items && s.Put(key, rw).items[k] == s.items[k])
  {
    EvictItems(Store(s.capacity, s.items[key := rw.value], if key in s.items then s.order else s.order + [key]));
  }

  lemma {:induction false} EvictItems(s: Store)
    ensures forall k :: k in s.Evict().items ==> k in s.items && s.Evict().items[k] == s.items[k]
    decreases |s.order|
  {
    if |s.order| > s.capacity {
      EvictItems(Store(s.capacity, s.items - {s.order[0]}, s.order[1..]));
    }
  }

  // ---------- what the upstream sees ----------

  /** The renames a forward step applies to its body. */
  function Applied(obfuscate: bool, e: Event): map<string, string>
    requires e.Forward?
  {
    if e.native && obfuscate && !Empty(e.rw) then e.rw.value.forward else map[]
  }

  lemma RenamedByNothing(body: Body)
    ensures RenamedBody(body, map[]) == body
  {
    if body.messages.Some? {
      forall i | 0 <= i < |body.messages.value|
        ensures RenamedMessage(body.messages.value[i], map[]) == body.messages.value[i]
      {
        var msg := body.messages.value[i];
        if msg.content.Blocks? {
          assert MapSeq(msg.content.blocks, b => RenamedBlock(b, map[])) == msg.content.blocks;
        }
      }
      assert MapSeq(body.messages.value, msg => RenamedMessage(msg, map[])) == body.messages.value;
    }
    if body.tools.Some? {
      assert MapSeq(body.tools.value, t => RenamedTool(t, map[])) == body.tools.value;
    }
  }

  lemma AppliedFits(s: State, e: Event, available: seq<string>)
    requires Possible(e, available) && e.body.tools.Some?
    ensures ForwardFor(Applied(s.obfuscate, e), e.body.tools.value)
    ensures |ToolNamesOf(e.body)| <= 600 ==> Injective(Applied(s.obfuscate, e))
    ensures UpstreamBody(s, e) == RenamedBody(e.body, Applied(s.obfuscate, e))
  {
    hide SanitizeToolName, RenamedBody, MimicableNames;
    var names := ToolNamesOf(e.body);
    ForwardMapFits(e.body.tools.value, e.body.messages.Some?, available);
    if |names| <= 600 {
      AliasesDistinct(names, e.body.messages.Some?, available);
    }
    RenamedByNothing(e.body);
  }

  /** No tool that is left alone is named like an alias in use. */
  predicate NoAliasTaken(tools: seq<Tool>, m: map<string, string>) {
    forall k :: 0 <= k < |tools| && !Mimicable(tools[k]) ==> tools[k].name !in m.Values
  }

  /** In any state: references of the body the upstream receives are declared if the
      client's were.  When the aliases are distinct, as they are up to 600 tool names,
      differently named tools stay so exactly when no tool left alone is named like an
      alias, and renaming back gives the client's body exactly when its history names
      no alias. */
  lemma UpstreamBodyConsistent(s: State, e: Event, available: seq<string>)
    requires Possible(e, available) && e.body.tools.Some?
    ensures UpstreamBody(s, e).tools.Some?
    ensures (forall n :: Refers(e.body, n) ==> Declared(e.body.tools.value, n)) ==>
            forall n :: Refers(UpstreamBody(s, e), n) ==> Declared(UpstreamBody(s, e).tools.value, n)
    ensures (|ToolNamesOf(e.body)| <= 600 || Injective(Applied(s.obfuscate, e))) && NamesDistinct(e.body.tools.value) ==>
            (NamesDistinct(UpstreamBody(s, e).tools.value) <==> NoAliasTaken(e.body.tools.value, Applied(s.obfuscate, e)))
    ensures |ToolNamesOf(e.body)| <= 600 || Injective(Applied(s.obfuscate, e)) ==>
            var m := Applied(s.obfuscate, e);
            var back := RenamedBody(UpstreamBody(s, e), ReverseMap(ToolNamesOf(e.body), m));
            (back == e.body <==> forall n :: Refers(e.body, n) ==> n !in m.Values)
  {
    hide MimicableNames, IsRewriteOf, Arrangement, DynamicAliases, ReverseMap;
    hide Declared, Refers, NamesDistinct, UpstreamBody, Applied;
    var m, tools := Applied(s.obfuscate, e), e.body.tools.value;
    AppliedFits(s, e, available);
    if forall n :: Refers(e.body, n) ==> Declared(tools, n) {
      ReferencesStayDeclared(e.body, m);
    }
    if |ToolNamesOf(e.body)| <= 600 || Injective(m) {
      if NamesDistinct(tools) {
        NamesStayDistinct(tools, m);
      }
      ReverseIsInverse(ToolNamesOf(e.body), m);
      RenameUndone(e.body, m, ReverseMap(ToolNamesOf(e.body), m));
    }
  }

  /** The name under which every tool that may be renamed reaches the upstream: its
      alias, a dynamic one from six names on where there are messages, unless somebody
      declares that alias. */
  lemma UpstreamNames(s: State, e: Event, available: seq<string>)
    requires Possible(e, available) && e.native && s.obfuscate && e.body.tools.Some?
    ensures var tools, out, names := e.body.tools.value, UpstreamBody(s, e).tools, ToolNamesOf(e.body);
      && out.Some? && |out.value| == |tools|
      && forall k :: 0 <= k < |tools| && tools[k].toolType in ["", "function", "custom"] && tools[k].name != "" ==>
           && tools[k].name in names
           && var alias := if e.body.messages.Some? && |names| >= 6
                           then DynamicAlias(available, tools[k].name, LastIndex(names, tools[k].name))
                           else StaticAlias(tools[k].name);
              out.value[k].name == if alias in names then tools[k].name else alias
  {
    hide StaticAlias, DynamicAlias, LastIndex;
    var tools, names := e.body.tools.value, ToolNamesOf(e.body);
    RenamedByNothing(e.body);
    forall k | 0 <= k < |tools| && Mimicable(tools[k])
      ensures tools[k].name in names
      ensures RenamedTool(tools[k], ForwardOf(names, e.body.messages.Some?, available)).name
           == var alias := if e.body.messages.Some? && |names| >= 6
                           then DynamicAlias(available, tools[k].name, LastIndex(names, tools[k].name))
                           else StaticAlias(tools[k].name);
              if alias in names then tools[k].name else alias
    {
      AliasOf(names, tools[k].name, e.body.messages.Some?, available);
    }
  }

  /** Under any shuffle of the pool, a tool that may be renamed reaches the upstream
      under a name it refuses only if the client declared that name and also its alias. */
  lemma UpstreamNotRefused(s: State, e: Event, available: seq<string>)
    requires Possible(e, available) && Shuffled(available)
    requires e.native && s.obfuscate && e.body.tools.Some?
    ensures var tools, out, names := e.body.tools.value, UpstreamBody(s, e).tools, ToolNamesOf(e.body);
      var dynamic := DynamicAliases(names, e.body.messages.Some?, available);
      && out.Some? && |out.value| == |tools|
      && forall k :: 0 <= k < |tools| && tools[k].toolType in ["", "function", "custom"] && tools[k].name != "" ==>
           (Refused(out.value[k].name) <==> Refused(tools[k].name) && SanitizeToolName(tools[k].name, dynamic) in names)
  {
    hide POOL, Refused, SanitizeToolName, DynamicAliases;
    var tools, names := e.body.tools.value, ToolNamesOf(e.body);
    RenamedByNothing(e.body);
    forall k | 0 <= k < |tools| && Mimicable(tools[k])
      ensures var dynamic := DynamicAliases(names, e.body.messages.Some?, available);
        Refused(RenamedTool(tools[k], ForwardMap(names, dynamic)).name)
        <==> Refused(tools[k].name) && SanitizeToolName(tools[k].name, dynamic) in names
    {
      SentRefused(names, tools[k].name, e.body.messages.Some?, available);
    }
  }

  /** Only native requests are renamed, and only while names are obfuscated; only for
      those with messages is a map stored. */
  lemma ForwardOnlyWhenAsked(s: State, e: Event)
    requires e.Forward?
    ensures !e.native || !s.obfuscate ==> UpstreamBody(s, e) == e.body && Step(s, e) == s
    ensures e.body.messages.None? ==> Step(s, e) == s
  {
  }

  // ---------- runs as histories of puts ----------

  function ConfigAfter(obfuscate: bool, es: seq<Event>): bool {
    if es == [] then obfuscate
    else if es[|es| - 1].Configure? then es[|es| - 1].obfuscate
    else ConfigAfter(obfuscate, es[..|es| - 1])
  }

  /** The puts of a run. */
  function Calls(obfuscate: bool, es: seq<Event>): seq<Call> {
    if es == [] then []
    else
      var init, e := es[..|es| - 1], es[|es| - 1];
      Calls(obfuscate, init) +
        if Stores(ConfigAfter(obfuscate, init), e) then [Call(RewriteKey(e.id, e.signature), e.rw)] else []
  }

  lemma {:induction false} RunIsHistory(obfuscate: bool, es: seq<Event>)
    ensures Run(obfuscate, es) == State(ConfigAfter(obfuscate, es), After(STORE_CAPACITY, Calls(obfuscate, es)))
  {
    if es != [] {
      var init, e := es[..|es| - 1], es[|es| - 1];
      RunIsHistory(obfuscate, init);
      if Stores(ConfigAfter(obfuscate, init), e) {
        var c := Call(RewriteKey(e.id, e.signature), e.rw);
        OneMoreCall(STORE_CAPACITY, Calls(obfuscate, init), c);
        assert Calls(obfuscate, es) == Calls(obfuscate, init) + [c];
      } else {
        assert Calls(obfuscate, es) == Calls(obfuscate, init);
      }
    }
  }

  lemma {:induction false} CallsSplit(obfuscate: bool, a: seq<Event>, b: seq<Event>)
    ensures ConfigAfter(obfuscate, a + b) == ConfigAfter(ConfigAfter(obfuscate, a), b)
    ensures Calls(obfuscate, a + b) == Calls(obfuscate, a) + Calls(ConfigAfter(obfuscate, a), b)
    decreases |b|
  {
    if b == [] {
      assert a + b == a;
    } else {
      var init := b[..|b| - 1];
      assert (a + b)[..|a + b| - 1] == a + init;
      CallsSplit(obfuscate, a, init);
    }
  }

  /** Step `k` of the run is a forward step that puts `c`. */
  predicate PutAt(obfuscate: bool, es: seq<Event>, k: nat, c: Call) {
    k < |es| && Stores(ConfigAfter(obfuscate, es[..k]), es[k]) && c == Call(RewriteKey(es[k].id, es[k].signature), es[k].rw)
  }

  /** Every put comes from a forward step of the run that stores its map. */
  lemma {:induction false} CallsComeFrom(obfuscate: bool, es: seq<Event>)
    ensures forall c :: c in Calls(obfuscate, es) ==> exists k: nat :: PutAt(obfuscate, es, k, c)
  {
    if es != [] {
      var init := es[..|es| - 1];
      CallsComeFrom(obfuscate, init);
      forall c | c in Calls(obfuscate, es) ensures exists k: nat :: PutAt(obfuscate, es, k, c) {
        if c in Calls(obfuscate, init) {
          var k: nat :| PutAt(obfuscate, init, k, c);
          assert init[..k] == es[..k];
          assert PutAt(obfuscate, es, k, c);
        } else {
          assert PutAt(obfuscate, es, |es| - 1, c);
        }
      }
    }
  }

  /** In every reachable state an entry holds the map of a forward step that has the
      entry's key, and an id's entry holds a map of that very id. */
  lemma EntriesBelong(obfuscate: bool, es: seq<Event>, key: string)
    requires key in Run(obfuscate, es).store.items
    ensures exists k: nat :: PutAt(obfuscate, es, k, Call(key, Some(Run(obfuscate, es).store.items[key])))
    ensures forall id, e: Event ::
      id != "" && key == "id:" + id && e.Forward? && RewriteKey(e.id, e.signature) == key ==> e.id == id
  {
    RunIsHistory(obfuscate, es);
    var calls := Calls(obfuscate, es);
    StoreReflectsHistory(STORE_CAPACITY, calls);
    LatestComesFrom(calls, key);
    CallsComeFrom(obfuscate, es);
    forall id, e: Event | id != "" && key == "id:" + id && e.Forward? && RewriteKey(e.id, e.signature) == key
      ensures e.id == id
    {
      KeysApart(id, 0, e.id, e.signature);
    }
  }

  /** The call that announces the headers of a stream is delivered as it is. */
  lemma HeaderInitKept(s: State, e: Event)
    requires e.Chunk? && e.index == -1
    ensures Delivered(s, e) == e.text
  {
  }

  lemma DeliveredBySignature(s: State, e: Event)
    requires (e.Response? || (e.Chunk? && e.index != -1)) && e.id == ""
    requires forall key :: key in s.store.items ==> NamesNonEmpty(s.store.items[key])
    ensures var key := Hex(e.signature);
      Delivered(s, e) ==
        if key in s.store.items then RestoreInTurn(e.text, s.store.items[key].reverseOrdered)
        else if s.obfuscate then UndoTogether(e.text, {Sessions, Session, Mcp})
        else e.text
  {
    hide UndoTogether;
    if Hex(e.signature) in s.store.items {
      var pairs := s.store.items[Hex(e.signature)].reverseOrdered;
      if e.text == "" {
        RestoreNothing(pairs);
      } else {
        RestoreNonEmpty(e.text, pairs);
      }
    } else {
      DeliveredWithoutMap(s, e);
    }
  }

  /** Every forward step of the run carries a map the builder makes. */
  ghost predicate Built(es: seq<Event>) {
    forall k :: 0 <= k < |es| && es[k].Forward? ==> exists available :: Possible(es[k], available)
  }

  /** In every reachable state: a reply without an id gets the map of its signature,
      and the static aliases undone exactly if there is none and obfuscation is on. */
  lemma ReplyWithoutId(obfuscate: bool, es: seq<Event>, e: Event)
    requires Built(es) && (e.Response? || (e.Chunk? && e.index != -1)) && e.id == ""
    ensures var s, key := Run(obfuscate, es), Hex(e.signature);
      Delivered(s, e) ==
        if key in s.store.items then RestoreInTurn(e.text, s.store.items[key].reverseOrdered)
        else if s.obfuscate then UndoTogether(e.text, {Sessions, Session, Mcp})
        else e.text
  {
    hide UndoTogether, Delivered, Run, IsRewriteOf;
    var s := Run(obfuscate, es);
    forall key | key in s.store.items ensures NamesNonEmpty(s.store.items[key]) {
      EntriesBelong(obfuscate, es, key);
      var k: nat :| PutAt(obfuscate, es, k, Call(key, Some(s.store.items[key])));
      var available :| Possible(es[k], available);
      var names := ToolNamesOf(es[k].body);
      BuiltNamesNonEmpty(s.store.items[key], es[k].body, DynamicAliases(names, es[k].body.messages.Some?, available));
    }
    DeliveredBySignature(s, e);
  }

  /** A reply that carries an id under which no forward step stored a map is passed
      through, byte for byte, whatever the configuration has become. */
  lemma UnknownIdPassesThrough(obfuscate: bool, es: seq<Event>, e: Event)
    requires (e.Response? || e.Chunk?) && e.id != ""
    requires forall k :: 0 <= k < |es| && Stores(ConfigAfter(obfuscate, es[..k]), es[k]) && !Empty(es[k].rw) ==>
      es[k].id != e.id
    ensures Delivered(Run(obfuscate, es), e) == e.text
  {
    var key := RewriteKey(e.id, e.signature);
    forall k: nat, rw | PutAt(obfuscate, es, k, Call(key, rw)) ensures es[k].id == e.id {
      KeysApart(e.id, e.signature, es[k].id, es[k].signature);
    }
    if key in Run(obfuscate, es).store.items {
      EntriesBelong(obfuscate, es, key);
      EntriesNonEmpty(obfuscate, es, key);
    }
  }

  lemma EntriesNonEmpty(obfuscate: bool, es: seq<Event>, key: string)
    requires key in Run(obfuscate, es).store.items
    ensures !Empty(Some(Run(obfuscate, es).store.items[key]))
  {
    RunIsHistory(obfuscate, es);
    StoreReflectsHistory(STORE_CAPACITY, Calls(obfuscate, es));
    LatestComesFrom(Calls(obfuscate, es), key);
  }

  // ---------- end to end ----------

  /** The forward step at `i` is the only one of its call before `j`. */
  ghost predicate OnlyForward(es: seq<Event>, i: nat, j: nat) {
    && i < j <= |es|
    && es[i].Forward? && es[i].native && es[i].body.messages.Some?
    && (forall k :: 0 <= k < j && k != i && es[k].Forward? ==> !SameCall(es[k], es[i]))
  }

  /** How many keys were admitted between the forward step `i` and position `j`. */
  function AdmittedBetween(obfuscate: bool, es: seq<Event>, i: nat, j: nat): nat
    requires i < j <= |es|
  {
    |AdmittedSince(STORE_CAPACITY, Calls(obfuscate, es[..i + 1]), Calls(ConfigAfter(obfuscate, es[..i + 1]), es[i + 1..j]))|
  }

  ghost predicate InFlight(obfuscate: bool, es: seq<Event>, i: nat, j: nat) {
    OnlyForward(es, i, j) && AdmittedBetween(obfuscate, es, i, j) < 2048
  }

  lemma OtherKeys(obfuscate: bool, es: seq<Event>, f: Event)
    requires f.Forward? && forall e :: e in es && e.Forward? ==> !SameCall(e, f)
    ensures forall c :: c in Calls(obfuscate, es) ==> c.key != RewriteKey(f.id, f.signature)
  {
    CallsComeFrom(obfuscate, es);
    forall c | c in Calls(obfuscate, es) ensures c.key != RewriteKey(f.id, f.signature) {
      var k: nat :| PutAt(obfuscate, es, k, c);
      KeysApart(f.id, f.signature, es[k].id, es[k].signature);
      assert es[k] in es;
    }
  }

  /** The puts before, at and after position `i`. */
  lemma CallsAround(obfuscate: bool, es: seq<Event>, i: nat, j: nat)
    requires i < j <= |es|
    ensures Calls(obfuscate, es[..i + 1]) == Calls(obfuscate, es[..i])
      + if Stores(ConfigAfter(obfuscate, es[..i]), es[i]) then [Call(RewriteKey(es[i].id, es[i].signature), es[i].rw)] else []
    ensures Calls(obfuscate, es[..j])
         == Calls(obfuscate, es[..i + 1]) + Calls(ConfigAfter(obfuscate, es[..i + 1]), es[i + 1..j])
  {
    assert es[..i + 1][..i] == es[..i];
    assert es[..j] == es[..i + 1] + es[i + 1..j];
    CallsSplit(obfuscate, es[..i + 1], es[i + 1..j]);
  }

  /** No other step of the run touches the key of the call. */
  lemma OwnKey(obfuscate: bool, es: seq<Event>, i: nat, j: nat)
    requires OnlyForward(es, i, j)
    ensures var key := RewriteKey(es[i].id, es[i].signature);
      && (forall c :: c in Calls(obfuscate, es[..i]) ==> c.key != key)
      && (forall c :: c in Calls(ConfigAfter(obfuscate, es[..i + 1]), es[i + 1..j]) ==> c.key != key)
  {
    OtherKeys(obfuscate, es[..i], es[i]);
    OtherKeys(ConfigAfter(obfuscate, es[..i + 1]), es[i + 1..j], es[i]);
  }

  /** The map is there when the reply comes, unless 2048 other keys came between. */
  lemma MapIsKept(obfuscate: bool, es: seq<Event>, i: nat, j: nat)
    requires OnlyForward(es, i, j)
    requires ConfigAfter(obfuscate, es[..i]) && !Empty(es[i].rw)
    ensures Run(obfuscate, es[..j]).store.Get(RewriteKey(es[i].id, es[i].signature))
         == if AdmittedBetween(obfuscate, es, i, j) < 2048 then es[i].rw else None
  {
    var key := RewriteKey(es[i].id, es[i].signature);
    var calls, more := Calls(obfuscate, es[..i]), Calls(ConfigAfter(obfuscate, es[..i + 1]), es[i + 1..j]);
    CallsAround(obfuscate, es, i, j);
    OwnKey(obfuscate, es, i, j);
    RunIsHistory(obfuscate, es[..j]);
    KeptByHistory(calls, key, es[i].rw, more);
  }

  lemma KeptByHistory(calls: seq<Call>, key: string, rw: Option<Rewrite>, more: seq<Call>)
    requires key != "" && !Empty(rw)
    requires forall c :: c in calls || c in more ==> c.key != key
    ensures After(STORE_CAPACITY, calls + [Call(key, rw)] + more).Get(key)
         == if |AdmittedSince(STORE_CAPACITY, calls + [Call(key, rw)], more)| < STORE_CAPACITY then rw else None
  {
    AdmittedFrom(STORE_CAPACITY, calls + [Call(key, rw)], more, key);
    AdmissionsComeFrom(STORE_CAPACITY, calls, key);
    Retention(STORE_CAPACITY, calls, key, rw, more);
    LatestUnchanged(calls + [Call(key, rw)], more, key);
    OneMoreCall(STORE_CAPACITY, calls, Call(key, rw));
  }

  /** The renames in force for the forward step at `i`. */
  function RenamesOf(obfuscate: bool, es: seq<Event>, i: nat, available: seq<string>): map<string, string>
    requires i < |es| && es[i].Forward? && |available| == POOL_SIZE
  {
    if ConfigAfter(obfuscate, es[..i])
    then ForwardOf(ToolNamesOf(es[i].body), true, available)
    else map[]
  }

  /** The names that may be renamed are identifiers. */
  ghost predicate WellNamed(body: Body) {
    body.tools.Some? ==> forall t :: t in body.tools.value && Mimicable(t) ==> WellFormed(t.name)
  }

  lemma NamesWellFormed(body: Body)
    requires WellNamed(body)
    ensures forall n :: n in ToolNamesOf(body) ==> WellFormed(n)
  {
    forall n | n in ToolNamesOf(body) ensures WellFormed(n) {
      var k :| 0 <= k < |body.tools.value| && Mimicable(body.tools.value[k]) && body.tools.value[k].name == n;
    }
  }

  /** However the steps of other requests and reconfigurations interleave, a reply is
      delivered with every alias of its own request, and nothing else, replaced. */
  lemma ReplyRestored(obfuscate: bool, es: seq<Event>, i: nat, j: nat, available: seq<string>)
    requires j < |es| && InFlight(obfuscate, es, i, j)
    requires Possible(es[i], available) && WellNamed(es[i].body)
    requires IsReply(es[j]) && SameCall(es[j], es[i])
    ensures var m := RenamesOf(obfuscate, es, i, available);
      && (es[i].id != "" || m != map[] ==>
            Delivered(Run(obfuscate, es[..j]), es[j]) == Subst(es[j].text, ReverseMap(ToolNamesOf(es[i].body), m)))
      && (m == map[] ==> Delivered(Run(obfuscate, es[..j]), es[j]) == WithoutMap(ConfigAfter(obfuscate, es[..j]), es[j]))
  {
    if RenamesOf(obfuscate, es, i, available) == map[] {
      ReplyUnrenamed(obfuscate, es, i, j, available);
    } else {
      ReplyWithMap(obfuscate, es, i, j, available);
    }
  }

  lemma ReplyUnrenamed(obfuscate: bool, es: seq<Event>, i: nat, j: nat, available: seq<string>)
    requires j < |es| && InFlight(obfuscate, es, i, j) && Possible(es[i], available)
    requires IsReply(es[j]) && SameCall(es[j], es[i]) && RenamesOf(obfuscate, es, i, available) == map[]
    ensures Delivered(Run(obfuscate, es[..j]), es[j]) == WithoutMap(ConfigAfter(obfuscate, es[..j]), es[j])
    ensures Subst(es[j].text, ReverseMap(ToolNamesOf(es[i].body), map[])) == es[j].text
  {
    hide Run, Delivered, Subst, MimicableNames, AdmittedBetween, WithoutMap;
    var names := ToolNamesOf(es[i].body);
    ReverseKeys(names, map[]);
    SubstIdentity(es[j].text, ReverseMap(names, map[]));
    NothingStored(obfuscate, es, i, j);
  }

  lemma ReplyWithMap(obfuscate: bool, es: seq<Event>, i: nat, j: nat, available: seq<string>)
    requires j < |es| && InFlight(obfuscate, es, i, j)
    requires Possible(es[i], available) && WellNamed(es[i].body)
    requires IsReply(es[j]) && SameCall(es[j], es[i]) && RenamesOf(obfuscate, es, i, available) != map[]
    ensures var m := RenamesOf(obfuscate, es, i, available);
      Delivered(Run(obfuscate, es[..j]), es[j]) == Subst(es[j].text, ReverseMap(ToolNamesOf(es[i].body), m))
  {
    hide Run, Delivered, Subst, MimicableNames, AdmittedBetween;
    var names := ToolNamesOf(es[i].body);
    MapIsKept(obfuscate, es, i, j);
    KeysApart(es[i].id, es[i].signature, es[j].id, es[j].signature);
    NamesWellFormed(es[i].body);
    ReverseIsReversible(names, true, available);
    var reverse := ReverseMap(names, RenamesOf(obfuscate, es, i, available));
    RestoredByMap(Run(obfuscate, es[..j]), es[j], es[i].rw, reverse);
  }

  lemma RestoredByMap(s: State, e: Event, rw: Option<Rewrite>, reverse: map<string, string>)
    requires IsReply(e) && rw.Some?
    requires s.store.Get(RewriteKey(e.id, e.signature)) == rw
    requires Lists(rw.value.reverseOrdered, reverse) && Reversible(reverse)
    ensures Delivered(s, e) == Subst(e.text, reverse)
  {
    RestoreIsSubst(e.text, rw.value.reverseOrdered, reverse);
    if e.text != "" {
      SubstNonEmpty(e.text, reverse);
    }
  }

  lemma NothingStored(obfuscate: bool, es: seq<Event>, i: nat, j: nat)
    requires j < |es| && OnlyForward(es, i, j)
    requires IsReply(es[j]) && SameCall(es[j], es[i])
    requires !ConfigAfter(obfuscate, es[..i]) || Empty(es[i].rw)
    ensures Delivered(Run(obfuscate, es[..j]), es[j]) == WithoutMap(ConfigAfter(obfuscate, es[..j]), es[j])
  {
    var key := RewriteKey(es[i].id, es[i].signature);
    KeysApart(es[i].id, es[i].signature, es[j].id, es[j].signature);
    RunIsHistory(obfuscate, es[..j]);
    StoreReflectsHistory(STORE_CAPACITY, Calls(obfuscate, es[..j]));
    NoCallFor(obfuscate, es, i, j);
    DeliveredWithoutMap(Run(obfuscate, es[..j]), es[j]);
  }

  lemma DeliveredWithoutMap(s: State, e: Event)
    requires IsReply(e) && s.store.Get(RewriteKey(e.id, e.signature)).None?
    ensures Delivered(s, e) == WithoutMap(s.obfuscate, e)
  {
    hide UndoTogether;
    if e.text == "" {
      NothingToUndo({Sessions, Session, Mcp});
    } else {
      UndoNonEmpty(e.text, {Sessions, Session, Mcp});
    }
  }

  lemma NoCallFor(obfuscate: bool, es: seq<Event>, i: nat, j: nat)
    requires OnlyForward(es, i, j)
    requires !ConfigAfter(obfuscate, es[..i]) || Empty(es[i].rw)
    ensures Latest(Calls(obfuscate, es[..j]), RewriteKey(es[i].id, es[i].signature)).None?
  {
    var key := RewriteKey(es[i].id, es[i].signature);
    var first, more := Calls(obfuscate, es[..i + 1]), Calls(ConfigAfter(obfuscate, es[..i + 1]), es[i + 1..j]);
    CallsAround(obfuscate, es, i, j);
    OwnKey(obfuscate, es, i, j);
    LatestUnchanged(first, more, key);
    LatestComesFrom(first, key);
    assert forall c :: c in first && !Empty(c.rw) ==> c in Calls(obfuscate, es[..i]);
  }

  /** After 2048 further admissions the map is gone, and the reply is passed through
      with its aliases, the static ones apart if there is no id: the bound of
      `ReplyRestored` cannot be raised. */
  lemma ReplyAfterEviction(obfuscate: bool, es: seq<Event>, i: nat, j: nat)
    requires j < |es| && OnlyForward(es, i, j)
    requires AdmittedBetween(obfuscate, es, i, j) >= 2048
    requires IsReply(es[j]) && SameCall(es[j], es[i])
    ensures Delivered(Run(obfuscate, es[..j]), es[j]) == WithoutMap(ConfigAfter(obfuscate, es[..j]), es[j])
  {
    if ConfigAfter(obfuscate, es[..i]) && !Empty(es[i].rw) {
      MapIsKept(obfuscate, es, i, j);
      KeysApart(es[i].id, es[i].signature, es[j].id, es[j].signature);
      RunIsHistory(obfuscate, es[..j]);
      DeliveredWithoutMap(Run(obfuscate, es[..j]), es[j]);
    } else {
      NothingStored(obfuscate, es, i, j);
    }
  }

  /** If the reply is the client's own text with declared names renamed, the client
      gets its text back. */
  lemma ClientSeesItsNames(obfuscate: bool, es: seq<Event>, i: nat, j: nat, available: seq<string>, clientText: string)
    requires j < |es| && InFlight(obfuscate, es, i, j)
    requires Possible(es[i], available) && WellNamed(es[i].body)
    requires |ToolNamesOf(es[i].body)| <= 600 || Injective(RenamesOf(obfuscate, es, i, available))
    requires IsReply(es[j]) && SameCall(es[j], es[i])
    requires es[i].id != "" || RenamesOf(obfuscate, es, i, available) != map[]
    requires var m := RenamesOf(obfuscate, es, i, available);
      && es[j].text == Subst(clientText, m)
      && forall w :: w in Tokens(clientText) ==> w !in m.Values
    ensures Delivered(Run(obfuscate, es[..j]), es[j]) == clientText
  {
    ReplyRestored(obfuscate, es, i, j, available);
    RenamesReversible(obfuscate, es, i, available);
    var m := RenamesOf(obfuscate, es, i, available);
    SubstUndone(clientText, m, ReverseMap(ToolNamesOf(es[i].body), m));
  }

  lemma RenamesReversible(obfuscate: bool, es: seq<Event>, i: nat, available: seq<string>)
    requires i < |es| && Possible(es[i], available) && WellNamed(es[i].body)
    ensures var m := RenamesOf(obfuscate, es, i, available);
      && (|ToolNamesOf(es[i].body)| <= 600 ==> Injective(m))
      && InverseOf(ReverseMap(ToolNamesOf(es[i].body), m), m)
      && forall n :: n in m ==> WellFormed(m[n])
  {
    var names := ToolNamesOf(es[i].body);
    var m := RenamesOf(obfuscate, es, i, available);
    ReverseIsInverse(names, m);
    NamesWellFormed(es[i].body);
    if ConfigAfter(obfuscate, es[..i]) {
      if |names| <= 600 {
        AliasesDistinct(names, true, available);
      }
      forall n | n in m ensures WellFormed(m[n]) {
        AliasWellFormed(names, true, available, n);
      }
    }
  }

  /** The text of a reply as the upstream sent it, and as the client receives it. */
  function TextAt(es: seq<Event>, j: nat): string
    requires j < |es| && IsReply(es[j])
  {
    es[j].text
  }

  function DeliveredAt(obfuscate: bool, es: seq<Event>, j: nat): string
    requires j < |es| && IsReply(es[j])
  {
    Delivered(Run(obfuscate, es[..j]), es[j])
  }

  ghost predicate RepliesTo(obfuscate: bool, es: seq<Event>, i: nat, js: seq<nat>) {
    && i < |es| && es[i].Forward?
    && forall k :: 0 <= k < |js| ==>
      js[k] < |es| && InFlight(obfuscate, es, i, js[k]) && IsReply(es[js[k]]) && SameCall(es[js[k]], es[i])
  }

  /** A whole stream: chunks at positions `js`, interleaved with anything, cut between
      identifiers, are delivered as the restored stream. */
  lemma StreamRestored(obfuscate: bool, es: seq<Event>, i: nat, js: seq<nat>, available: seq<string>)
    requires RepliesTo(obfuscate, es, i, js)
    requires Possible(es[i], available) && WellNamed(es[i].body)
    requires es[i].id != "" || RenamesOf(obfuscate, es, i, available) != map[]
    requires CleanCuts(seq(|js|, k requires 0 <= k < |js| => TextAt(es, js[k])))
    ensures var m := RenamesOf(obfuscate, es, i, available);
      Concat(seq(|js|, k requires 0 <= k < |js| => DeliveredAt(obfuscate, es, js[k])))
      == Subst(Concat(seq(|js|, k requires 0 <= k < |js| => TextAt(es, js[k]))), ReverseMap(ToolNamesOf(es[i].body), m))
  {
    hide Run, Delivered, Subst, ReverseMap, RenamesOf, WellNamed, AdmittedBetween, OnlyForward, CleanCuts, Concat;
    var reverse := ReverseMap(ToolNamesOf(es[i].body), RenamesOf(obfuscate, es, i, available));
    var chunks := seq(|js|, k requires 0 <= k < |js| => TextAt(es, js[k]));
    SubstChunks(chunks, reverse);
    forall k | 0 <= k < |js| ensures DeliveredAt(obfuscate, es, js[k]) == Subst(chunks[k], reverse) {
      ReplyRestored(obfuscate, es, i, js[k], available);
    }
    assert seq(|js|, k requires 0 <= k < |js| => DeliveredAt(obfuscate, es, js[k]))
        == seq(|chunks|, k requires 0 <= k < |chunks| => Subst(chunks[k], reverse));
  }

  /** If the upstream's stream is the client's own text with declared names renamed,
      the chunks as delivered spell the client's text. */
  lemma ClientSeesStream(obfuscate: bool, es: seq<Event>, i: nat, js: seq<nat>, available: seq<string>, clientText: string)
    requires RepliesTo(obfuscate, es, i, js)
    requires Possible(es[i], available) && WellNamed(es[i].body)
    requires |ToolNamesOf(es[i].body)| <= 600 || Injective(RenamesOf(obfuscate, es, i, available))
    requires es[i].id != "" || RenamesOf(obfuscate, es, i, available) != map[]
    requires CleanCuts(seq(|js|, k requires 0 <= k < |js| => TextAt(es, js[k])))
    requires var m := RenamesOf(obfuscate, es, i, available);
      && Concat(seq(|js|, k requires 0 <= k < |js| => TextAt(es, js[k]))) == Subst(clientText, m)
      && forall w :: w in Tokens(clientText) ==> w !in m.Values
    ensures Concat(seq(|js|, k requires 0 <= k < |js| => DeliveredAt(obfuscate, es, js[k]))) == clientText
  {
    StreamRestored(obfuscate, es, i, js, available);
    RenamesReversible(obfuscate, es, i, available);
    var m := RenamesOf(obfuscate, es, i, available);
    SubstUndone(clientText, m, ReverseMap(ToolNamesOf(es[i].body), m));
  }
}
