/**
 * ToolRegistry (src/registry/tool_registry.py): tools registered under their
 * names; registering a name again replaces the earlier tool.
 *
 * A tool is the record of its declared properties; executing it is not part
 * of the registry.
 */
module Tools {
  import opened Wrappers
  import opened Dicts
  import opened Values
  import opened Types

  /** The declaration of a tool: name, version, schemas, timeout, permission and side effect. */
  datatype Tool = Tool(
    name: string,
    version: string,
    inputSchema: Fields,
    outputSchema: Fields,
    timeoutMs: int,
    permissionLevel: PermissionLevel,
    hasSideEffect: bool)

  type Tools = Dict<string, Tool>

  /** The version of each tool, under its name, in registration order. */
  function Versions(tools: Tools): (r: Dict<string, string>)
    ensures Keys(r) == Keys(tools)
    ensures forall i :: 0 <= i < |r| ==> r[i].1 == tools[i].1.version
  {
    MapValues(tools, (t: Tool) => t.version)
  }

  /** Looking a name up in the version listing gives the version of the tool registered under it. */
  lemma VersionsGet(tools: Tools, name: string)
    ensures Get(Versions(tools), name) == match Get(tools, name) case Some(t) => Some(t.version) case None => None
  {
    GetMapValues(tools, (t: Tool) => t.version, name);
  }

  class ToolRegistry {
    /** `_tools`: name -> tool. */
    var tools: Tools

    /** Names are distinct and every tool is filed under its own name. */
    ghost predicate Valid()
      reads this
    {
      && Dicts.Valid(tools)
      && forall n :: Dicts.Get(tools, n).Some? ==> Dicts.Get(tools, n).value.name == n
    }

    constructor ()
      ensures Valid()
      ensures tools == []
    {
      tools := [];
    }

    /** `register(tool)`: file the tool under its name, replacing any earlier tool of that name. */
    method Register(tool: Tool)
      requires Valid()
      modifies this
      ensures Valid()
      ensures tools == Put(old(tools), tool.name, tool)
      ensures Dicts.Get(tools, tool.name) == Some(tool)
      ensures forall n :: n != tool.name ==> Dicts.Get(tools, n) == Dicts.Get(old(tools), n)
    {
      PutValid(tools, tool.name, tool);
      tools := Put(tools, tool.name, tool);
    }

    /** `get(name)`: the tool registered under `name`, or nothing. */
    function Get(name: string): (r: Option<Tool>)
      reads this
      requires Valid()
      ensures r.Some? <==> name in Keys(tools)
      ensures r.Some? ==> r.value.name == name && (name, r.value) in tools
    {
      var r := Dicts.Get(tools, name);
      if r.Some? then GetFound(tools, name); r else r
    }

    /** `exists(name)`: whether a tool is registered under `name`. */
    function Exists(name: string): (b: bool)
      reads this
      requires Valid()
      ensures b <==> Get(name).Some?
    {
      name in Keys(tools)
    }

    /** `list_tools()`, by definition `Versions` of the current tools; `Versions` and `VersionsGet` state what it holds. */
    function ListTools(): (r: Dict<string, string>)
      reads this
      ensures r == Versions(tools)
    {
      Versions(tools)
    }
  }

  /** Registering two tools of the same name one after the other leaves only the second. */
  lemma RegisterTwice(tools: Tools, first: Tool, second: Tool)
    requires first.name == second.name
    ensures Put(Put(tools, first.name, first), second.name, second) == Put(tools, second.name, second)
  {
    PutTwice(tools, first.name, first, second);
  }
}
