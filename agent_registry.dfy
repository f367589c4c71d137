/**
 * AgentRegistry (src/registry/agent_registry.py): agents registered under
 * their unique names, in registration order, looked up by name or by role.
 *
 * An agent is reduced to the two properties the registry reads, its name and
 * its role; the raised `ValueError`/`KeyError` are the `RegistryError` cases.
 */
module Agents {
  import opened Wrappers
  import opened Dicts
  import opened Types

  datatype Agent = Agent(name: string, role: AgentRole)

  datatype RegistryError =
    | AlreadyRegistered(name: string)
    | NoAgentForRole(role: AgentRole)
    | UnknownAgent(name: string)

  type Agents = Dict<string, Agent>

  /** The position of the earliest registered agent with `role`, if there is one. */
  function FirstWithRole(agents: Agents, role: AgentRole): (r: Option<nat>)
    ensures r.Some? ==> r.value < |agents| && agents[r.value].1.role == role
    ensures r.Some? ==> forall k :: 0 <= k < r.value ==> agents[k].1.role != role
    ensures r.None? <==> forall k :: 0 <= k < |agents| ==> agents[k].1.role != role
  {
    if agents == [] then None
    else if agents[0].1.role == role then Some(0)
    else match FirstWithRole(agents[1..], role)
      case Some(i) => Some(i + 1)
      case None => None
  }

  /** The role of each agent, under its name, in registration order. */
  function Roles(agents: Agents): (r: Dict<string, AgentRole>)
    ensures Keys(r) == Keys(agents)
    ensures forall i :: 0 <= i < |r| ==> r[i].1 == agents[i].1.role
  {
    MapValues(agents, (a: Agent) => a.role)
  }

  /** Looking a name up in the role listing gives the role of the agent registered under it. */
  lemma RolesGet(agents: Agents, name: string)
    ensures Get(Roles(agents), name) == match Get(agents, name) case Some(a) => Some(a.role) case None => None
  {
    GetMapValues(agents, (a: Agent) => a.role, name);
  }

  class AgentRegistry {
    /** `_agents`: name -> agent, in registration order. */
    var agents: Agents

    /** Names are distinct and every agent is filed under its own name. */
    ghost predicate Valid()
      reads this
    {
      && Dicts.Valid(agents)
      && forall n :: Dicts.Get(agents, n).Some? ==> Dicts.Get(agents, n).value.name == n
    }

    constructor ()
      ensures Valid()
      ensures agents == []
    {
      agents := [];
    }

    /** `register(agent)`: refuse a name already taken, otherwise add the agent after all earlier ones. */
    method Register(agent: Agent) returns (r: Result<(), RegistryError>)
      requires Valid()
      modifies this
      ensures Valid()
      ensures r.Err? <==> agent.name in Keys(old(agents))
      ensures r.Err? ==> r.error == AlreadyRegistered(agent.name) && agents == old(agents)
      ensures r.Ok? ==> agents == old(agents) + [(agent.name, agent)]
      ensures r.Ok? ==> Dicts.Get(agents, agent.name) == Some(agent)
      ensures forall n :: n != agent.name ==> Dicts.Get(agents, n) == Dicts.Get(old(agents), n)
    {
      if agent.name in Keys(agents) {
        return Err(AlreadyRegistered(agent.name));
      }
      PutValid(agents, agent.name, agent);
      PutAbsent(agents, agent.name, agent);
      agents := Put(agents, agent.name, agent);
      return Ok(());
    }

    /** `get_by_role(role)`: the earliest registered agent with that role, or an error when none has it. */
    method GetByRole(role: AgentRole) returns (r: Result<Agent, RegistryError>)
      ensures r == match FirstWithRole(agents, role)
                   case Some(i) => Ok(agents[i].1)
                   case None => Err(NoAgentForRole(role))
      ensures r.Err? <==> forall k :: 0 <= k < |agents| ==> agents[k].1.role != role
      ensures r.Ok? ==> r.value.role == role
    {
      for i := 0 to |agents|
        invariant forall k :: 0 <= k < i ==> agents[k].1.role != role
      {
        if agents[i].1.role == role {
          return Ok(agents[i].1);
        }
      }
      return Err(NoAgentForRole(role));
    }

    /** `get(name)`: the agent registered under `name`; an unknown name is an error. */
    function Get(name: string): (r: Result<Agent, RegistryError>)
      reads this
      requires Valid()
      ensures r.Ok? <==> name in Keys(agents)
      ensures r.Ok? ==> r.value.name == name && Dicts.Get(agents, name) == Some(r.value)
      ensures r.Err? ==> r.error == UnknownAgent(name)
    {
      match Dicts.Get(agents, name)
      case Some(a) => Ok(a)
      case None => Err(UnknownAgent(name))
    }

    /** `list_agents()`, by definition `Roles` of the current agents; `Roles` and `RolesGet` state what it holds. */
    function ListAgents(): (r: Dict<string, AgentRole>)
      reads this
      ensures r == Roles(agents)
    {
      Roles(agents)
    }
  }
}
