/** The request body, as far as tool names go, and the in-place rename of it.

    `rest` fields stand for everything the rename does not look at. */
module RequestBody {
  import opened Text
  import opened Identifiers
  import opened ToolNames
  import opened RewriteMap

  /** An absent type or name reads as the empty string. */
  datatype Tool = Tool(toolType: string, name: string, rest: string)
  datatype ToolChoice = ToolChoice(choiceType: string, name: string, rest: string)
  datatype Block = Block(blockType: string, name: string, rest: string)
  /** Message content is a plain string or a list of blocks. */
  datatype Content = Plain(text: string) | Blocks(blocks: seq<Block>)
  datatype Message = Message(content: Content, rest: string)
  datatype Body = Body(
    tools: Option<seq<Tool>>, toolChoice: Option<ToolChoice>, messages: Option<seq<Message>>, rest: string)

  /** Server tools have a type of their own and are never renamed. */
  predicate ShouldMimic(toolType: string) {
    toolType == "" || toolType == "function" || toolType == "custom"
  }

  predicate Mimicable(t: Tool) {
    ShouldMimic(t.toolType) && t.name != ""
  }

  function MimicableNames(tools: seq<Tool>): (names: seq<string>)
    ensures forall n :: n in names <==> exists k :: 0 <= k < |tools| && Mimicable(tools[k]) && tools[k].name == n
  {
    if tools == [] then []
    else
      var init, last := tools[..|tools| - 1], tools[|tools| - 1];
      MimicableNames(init) + if Mimicable(last) then [last.name] else []
  }

  function ToolNamesOf(body: Body): seq<string> {
    if body.tools.Some? then MimicableNames(body.tools.value) else []
  }

  /** Collects the names, then builds the maps. */
  method BuildToolNameRewriteFromBody(body: Body, dynamicAliases: bool, shuffle: Shuffler) returns (rw: Option<Rewrite>)
    requires Arranges(shuffle)
    ensures var names := ToolNamesOf(body);
      IsRewriteOf(rw, names, DynamicAliases(names, dynamicAliases, shuffle(names)))
  {
    if body.tools.None? {
      return None;
    }
    var tools := body.tools.value;
    var mimicableNames: seq<string> := [];
    for k := 0 to |tools|
      invariant mimicableNames == MimicableNames(tools[..k])
    {
      assert tools[..k + 1][..k] == tools[..k];
      if !ShouldMimic(tools[k].toolType) {
        continue;
      }
      if tools[k].name == "" {
        continue;
      }
      mimicableNames := mimicableNames + [tools[k].name];
    }
    assert tools[..|tools|] == tools;
    rw := BuildToolNameRewrite(mimicableNames, dynamicAliases, shuffle(mimicableNames));
  }

  // ---------- the rename ----------

  function RenamedTool(t: Tool, m: map<string, string>): Tool {
    if Mimicable(t) && t.name in m then t.(name := m[t.name]) else t
  }

  function RenamedChoice(c: ToolChoice, m: map<string, string>): ToolChoice {
    if c.choiceType == "tool" && c.name in m then c.(name := m[c.name]) else c
  }

  function RenamedBlock(b: Block, m: map<string, string>): Block {
    if b.blockType == "tool_use" && b.name in m then b.(name := m[b.name]) else b
  }

  function RenamedMessage(msg: Message, m: map<string, string>): Message {
    if msg.content.Plain? then msg
    else msg.(content := Blocks(MapSeq(msg.content.blocks, b => RenamedBlock(b, m))))
  }

  function RenamedBody(body: Body, m: map<string, string>): Body {
    Body(
      if body.tools.Some? then Some(MapSeq(body.tools.value, t => RenamedTool(t, m))) else None,
      if body.toolChoice.Some? then Some(RenamedChoice(body.toolChoice.value, m)) else None,
      if body.messages.Some? then Some(MapSeq(body.messages.value, msg => RenamedMessage(msg, m))) else None,
      body.rest)
  }

  /** Rewrites the body field by field: tools, then tool_choice, then history. */
  method ApplyToolNameRewriteToBody(input: Body, rw: Option<Rewrite>) returns (body: Body)
    ensures body == if Empty(rw) then input else RenamedBody(input, rw.value.forward)
  {
    body := input;
    if Empty(rw) {
      return;
    }
    var forward := rw.value.forward;
    if input.tools.Some? {
      var tools := RenameTools(input.tools.value, forward);
      body := body.(tools := Some(tools));
    }
    if body.toolChoice.Some? && body.toolChoice.value.choiceType == "tool" {
      var choice := body.toolChoice.value;
      if choice.name in forward {
        body := body.(toolChoice := Some(choice.(name := forward[choice.name])));
      }
    }
    if input.messages.Some? {
      var messages := RenameMessages(input.messages.value, forward);
      body := body.(messages := Some(messages));
    }
  }

  method RenameTools(input: seq<Tool>, forward: map<string, string>) returns (tools: seq<Tool>)
    ensures tools == MapSeq(input, t => RenamedTool(t, forward))
  {
    tools := input;
    for idx := 0 to |input|
      invariant |tools| == |input|
      invariant forall k :: 0 <= k < idx ==> tools[k] == RenamedTool(input[k], forward)
      invariant forall k :: idx <= k < |input| ==> tools[k] == input[k]
    {
      var t := input[idx];
      if !ShouldMimic(t.toolType) {
        continue;
      }
      if t.name == "" {
        continue;
      }
      if t.name !in forward {
        continue;
      }
      tools := tools[idx := tools[idx].(name := forward[t.name])];
    }
  }

  method RenameMessages(input: seq<Message>, forward: map<string, string>) returns (messages: seq<Message>)
    ensures messages == MapSeq(input, msg => RenamedMessage(msg, forward))
  {
    messages := input;
    for msgIdx := 0 to |input|
      invariant |messages| == |input|
      invariant forall k :: 0 <= k < msgIdx ==> messages[k] == RenamedMessage(input[k], forward)
      invariant forall k :: msgIdx <= k < |input| ==> messages[k] == input[k]
    {
      if input[msgIdx].content.Plain? {
        continue;
      }
      var blocks := RenameBlocks(input[msgIdx].content.blocks, forward);
      messages := messages[msgIdx := messages[msgIdx].(content := Blocks(blocks))];
    }
  }

  method RenameBlocks(input: seq<Block>, forward: map<string, string>) returns (blocks: seq<Block>)
    ensures blocks == MapSeq(input, b => RenamedBlock(b, forward))
  {
    blocks := input;
    for blkIdx := 0 to |input|
      invariant |blocks| == |input|
      invariant forall k :: 0 <= k < blkIdx ==> blocks[k] == RenamedBlock(input[k], forward)
      invariant forall k :: blkIdx <= k < |input| ==> blocks[k] == input[k]
    {
      if input[blkIdx].blockType != "tool_use" {
        continue;
      }
      if input[blkIdx].name in forward {
        blocks := blocks[blkIdx := blocks[blkIdx].(name := forward[input[blkIdx].name])];
      }
    }
  }

  // ---------- what the rename keeps ----------

  predicate Declared(tools: seq<Tool>, name: string) {
    exists k :: 0 <= k < |tools| && tools[k].name == name
  }

  /** The names by which `body` refers to a tool. */
  predicate Refers(body: Body, name: string) {
    || (body.toolChoice.Some? && body.toolChoice.value.choiceType == "tool" && body.toolChoice.value.name == name)
    || (body.messages.Some? && exists i :: 0 <= i < |body.messages.value| && MessageRefers(body.messages.value[i], name))
  }

  predicate MessageRefers(msg: Message, name: string) {
    msg.content.Blocks? && exists b :: b in msg.content.blocks && b.blockType == "tool_use" && b.name == name
  }

  /** The renames `body` itself gives rise to. */
  ghost predicate ForwardFor(m: map<string, string>, tools: seq<Tool>) {
    && (forall n :: n in m ==> n in MimicableNames(tools))
    && (forall n :: n in m ==> m[n] != "" && m[n] !in MimicableNames(tools))
  }

  lemma RenamedDeclared(tools: seq<Tool>, m: map<string, string>, name: string)
    requires ForwardFor(m, tools) && Declared(tools, name)
    ensures Declared(MapSeq(tools, t => RenamedTool(t, m)), if name in m then m[name] else name)
  {
  }

  /** Where a reference of the rewritten body comes from. */
  lemma RenamedRefers(body: Body, m: map<string, string>, name: string)
    requires Refers(RenamedBody(body, m), name)
    ensures exists n :: Refers(body, n) && name == if n in m then m[n] else n
  {
  }

  /** A body all of whose references are declared is rewritten to one. */
  lemma ReferencesStayDeclared(body: Body, m: map<string, string>)
    requires body.tools.Some? && ForwardFor(m, body.tools.value)
    requires forall n :: Refers(body, n) ==> Declared(body.tools.value, n)
    ensures forall n :: Refers(RenamedBody(body, m), n) ==> Declared(RenamedBody(body, m).tools.value, n)
  {
    forall name | Refers(RenamedBody(body, m), name) ensures Declared(RenamedBody(body, m).tools.value, name) {
      RenamedRefers(body, m, name);
      var n :| Refers(body, n) && name == if n in m then m[n] else n;
      RenamedDeclared(body.tools.value, m, n);
    }
  }

  ghost predicate NamesDistinct(tools: seq<Tool>) {
    forall i, j :: 0 <= i < j < |tools| ==> tools[i].name != tools[j].name
  }

  /** Different tools keep different names, exactly when no tool the rename must
      leave alone is already named like an alias in use. */
  lemma NamesStayDistinct(tools: seq<Tool>, m: map<string, string>)
    requires ForwardFor(m, tools) && Injective(m) && NamesDistinct(tools)
    ensures NamesDistinct(MapSeq(tools, t => RenamedTool(t, m)))
            <==> forall k :: 0 <= k < |tools| && !Mimicable(tools[k]) ==> tools[k].name !in m.Values
  {
  }

  /** Applying the reversal to the rewritten body gives the body back, exactly when
      the client's history names no alias of its own request. */
  lemma RenameUndone(body: Body, m: map<string, string>, r: map<string, string>)
    requires body.tools.Some? && ForwardFor(m, body.tools.value)
    requires Injective(m) && InverseOf(r, m)
    ensures RenamedBody(RenamedBody(body, m), r) == body <==> forall n :: Refers(body, n) ==> n !in r
  {
    var back := RenamedBody(RenamedBody(body, m), r);
    if n :| Refers(body, n) && n in r {
      AliasInHistory(body, m, r, n);
    } else {
      assert back.tools.value == body.tools.value by {
        ToolsUndone(body.tools.value, m, r);
      }
      assert body.toolChoice.Some? && body.toolChoice.value.choiceType == "tool" ==> Refers(body, body.toolChoice.value.name);
      assert back.toolChoice == body.toolChoice;
      if body.messages.Some? {
        forall i | 0 <= i < |body.messages.value| ensures back.messages.value[i] == body.messages.value[i] {
          MessageUndone(body, i, m, r);
        }
        assert back.messages.value == body.messages.value;
      }
    }
  }

  lemma ToolsUndone(tools: seq<Tool>, m: map<string, string>, r: map<string, string>)
    requires ForwardFor(m, tools) && Injective(m) && InverseOf(r, m)
    ensures MapSeq(MapSeq(tools, t => RenamedTool(t, m)), t => RenamedTool(t, r)) == tools
  {
  }

  lemma MessageUndone(body: Body, i: nat, m: map<string, string>, r: map<string, string>)
    requires Injective(m) && InverseOf(r, m)
    requires forall n :: Refers(body, n) ==> n !in r
    requires body.messages.Some? && i < |body.messages.value|
    ensures RenamedMessage(RenamedMessage(body.messages.value[i], m), r) == body.messages.value[i]
  {
  }

  lemma AliasInHistory(body: Body, m: map<string, string>, r: map<string, string>, n: string)
    requires body.tools.Some? && ForwardFor(m, body.tools.value) && InverseOf(r, m)
    requires Refers(body, n) && n in r
    ensures RenamedBody(RenamedBody(body, m), r) != body
  {
    var back := RenamedBody(RenamedBody(body, m), r);
    assert n !in m && r[n] != n;
    if body.toolChoice.Some? && body.toolChoice.value.choiceType == "tool" && body.toolChoice.value.name == n {
      assert back.toolChoice.value.name == r[n];
    } else {
      var i :| 0 <= i < |body.messages.value| && MessageRefers(body.messages.value[i], n);
      AliasInMessage(body.messages.value[i], m, r, n);
      assert back.messages.value[i] == RenamedMessage(RenamedMessage(body.messages.value[i], m), r);
    }
  }

  lemma AliasInMessage(msg: Message, m: map<string, string>, r: map<string, string>, n: string)
    requires MessageRefers(msg, n) && n !in m && n in r && r[n] != n
    ensures RenamedMessage(RenamedMessage(msg, m), r) != msg
  {
  }

  /** Server tools, and every field but the names, come through untouched: tools,
      messages and blocks keep their number, order, types and other fields, and a
      name changes exactly where the map gives another one and the kind allows it. */
  lemma OnlyNamesChange(body: Body, m: map<string, string>)
    ensures RenamedBody(body, m).rest == body.rest
    ensures body.tools.Some? <==> RenamedBody(body, m).tools.Some?
    ensures body.tools.Some? ==>
      var tools, out := body.tools.value, RenamedBody(body, m).tools.value;
      && |out| == |tools|
      && (forall k :: 0 <= k < |tools| ==> out[k] == tools[k].(name := out[k].name))
      && (forall k :: 0 <= k < |tools| ==>
            (out[k] != tools[k] <==> tools[k].toolType in ["", "function", "custom"] && tools[k].name != ""
                                     && Lookup(m, tools[k].name) != tools[k].name))
      && (forall k :: 0 <= k < |tools| && out[k] != tools[k] ==> out[k].name == Lookup(m, tools[k].name))
    ensures body.toolChoice.Some? <==> RenamedBody(body, m).toolChoice.Some?
    ensures body.toolChoice.Some? ==>
      var choice, out := body.toolChoice.value, RenamedBody(body, m).toolChoice.value;
      && out == choice.(name := out.name)
      && (out != choice <==> choice.choiceType == "tool" && Lookup(m, choice.name) != choice.name)
      && (out != choice ==> out.name == Lookup(m, choice.name))
    ensures body.messages.Some? <==> RenamedBody(body, m).messages.Some?
    ensures body.messages.Some? ==>
      var messages, out := body.messages.value, RenamedBody(body, m).messages.value;
      && |out| == |messages|
      && forall k :: 0 <= k < |messages| ==> out[k] == messages[k].(content := out[k].content)
                                             && OnlyBlockNamesChange(messages[k].content, out[k].content, m)
  {
  }

  predicate OnlyBlockNamesChange(content: Content, out: Content, m: map<string, string>) {
    match content
    case Plain(_) => out == content
    case Blocks(blocks) =>
      && out.Blocks? && |out.blocks| == |blocks|
      && (forall k :: 0 <= k < |blocks| ==> out.blocks[k] == blocks[k].(name := out.blocks[k].name))
      && (forall k :: 0 <= k < |blocks| ==>
            (out.blocks[k] != blocks[k] <==> blocks[k].blockType == "tool_use" && Lookup(m, blocks[k].name) != blocks[k].name))
      && (forall k :: 0 <= k < |blocks| && out.blocks[k] != blocks[k] ==> out.blocks[k].name == Lookup(m, blocks[k].name))
  }

  /** The map the builder makes for a body is one of these. */
  lemma ForwardMapFits(tools: seq<Tool>, enabled: bool, available: seq<string>)
    requires |available| == POOL_SIZE
    ensures ForwardFor(ForwardMap(MimicableNames(tools), DynamicAliases(MimicableNames(tools), enabled, available)), tools)
  {
    var names := MimicableNames(tools);
    forall n | n in names ensures SanitizeToolName(n, DynamicAliases(names, enabled, available)) != "" {
      StaticAliasCases(n);
    }
  }
}
