/**
  The `WebSummarizer` crew: resolution of the agent profile from the parsed
  agents configuration, validation of the request inputs, and the one-task,
  one-crew request whose outcome is normalised into one of two result shapes.
  What `crew.kickoff()` does is abstracted as a total function from the crew
  it is given to an outcome; an exception raised while the task or the crew is
  built is folded into that outcome as well.
 */
module Crew {
  import opened Wrappers

  /** The four search tools, in the order the agent is given them; website
      search is the one bound to the base Gemini model. */
  datatype Tool = WebsiteSearch | ExaSearch | GithubSearch | DirectorySearch

  /** The crewAI LLM wrapper's settings; the API key comes from the
      environment. */
  datatype Llm = Llm(provider: string, model: string, temperature: real, apiKey: Option<string>)

  datatype Agent = Agent(role: string, goal: string, backstory: string, llm: Llm, tools: seq<Tool>)

  datatype Task = Task(description: string, agent: Agent, expectedOutput: string)

  datatype Process = Sequential | Hierarchical

  /** The arguments a `Crew` is constructed with. */
  datatype CrewSpec = CrewSpec(
    agents: seq<Agent>, tasks: seq<Task>, process: Process, manager: Agent,
    maxRpm: nat, taskTimeout: nat)

  /** What running the crew ends in: its result, or an exception with its
      message (`str(e)`). */
  datatype Outcome = Ok(summary: string) | Raised(message: string)

  /** The two shapes of the dictionary `handle_request` returns. */
  datatype Response = Success(summary: string) | ServiceError(error: string, details: string)

  /** A value of `crew_inputs`: a string or `None`. */
  datatype Value = NoneValue | Str(s: string)

  /** What `run` does: return a response, or raise `ValueError`. */
  datatype RunResult = Returned(response: Response) | ValueError(message: string)

  /** A field of a response dictionary. */
  datatype Field = BoolField(b: bool) | StrField(s: string)

  /** The profile of the agent: the three strings taken from the configuration. */
  datatype Profile = Profile(role: string, goal: string, backstory: string)

  const AgentKey := "web_summarizer_agent"
  const DefaultRole := "Web Content Summarizer"
  const DefaultGoal := "Create concise and accurate summaries of web content based on user queries"
  const DefaultBackstory := ""
  const ExpectedOutput := "A concise and relevant summary."
  const MaxRpm := 20
  const TaskTimeout := 600
  const ServiceErrorKind := "Service error"
  const MissingQuery := "Query is required in crew_inputs"
  const Tools := [WebsiteSearch, ExaSearch, GithubSearch, DirectorySearch]

  /** `d.get(key, default)` on a string-valued dictionary. */
  function Get(d: map<string, string>, key: string, default: string): string {
    if key in d then d[key] else default
  }

  /** `agents_config.get('web_summarizer_agent', {})`. */
  function AgentEntry(config: map<string, map<string, string>>): map<string, string> {
    if AgentKey in config then config[AgentKey] else map[]
  }

  /** The role, goal and backstory the agent is built with. */
  function ResolveProfile(config: map<string, map<string, string>>): Profile {
    var entry := AgentEntry(config);
    Profile(Get(entry, "role", DefaultRole), Get(entry, "goal", DefaultGoal),
            Get(entry, "backstory", DefaultBackstory))
  }

  /** Each field comes from the agent's entry when the entry has it, and is
      its default otherwise; a missing entry gives all three defaults. */
  lemma ProfileFieldSources(config: map<string, map<string, string>>)
    ensures AgentKey !in config ==>
      ResolveProfile(config) == Profile(DefaultRole, DefaultGoal, DefaultBackstory)
    ensures AgentKey in config && "role" in config[AgentKey] ==>
      ResolveProfile(config).role == config[AgentKey]["role"]
    ensures AgentKey in config && "goal" in config[AgentKey] ==>
      ResolveProfile(config).goal == config[AgentKey]["goal"]
    ensures AgentKey in config && "backstory" in config[AgentKey] ==>
      ResolveProfile(config).backstory == config[AgentKey]["backstory"]
    ensures AgentKey in config && "role" !in config[AgentKey] ==>
      ResolveProfile(config).role == DefaultRole
    ensures AgentKey in config && "goal" !in config[AgentKey] ==>
      ResolveProfile(config).goal == DefaultGoal
    ensures AgentKey in config && "backstory" !in config[AgentKey] ==>
      ResolveProfile(config).backstory == DefaultBackstory
  {
  }

  /** A missing agent entry behaves as an empty one, and the profile depends
      on nothing but the role, goal and backstory of that entry: other agents'
      entries and the entry's `llm` key do not affect it. */
  lemma ProfileDependsOnlyOnOwnEntry(config: map<string, map<string, string>>, other: string, entry: map<string, string>, llm: string)
    requires other != AgentKey
    ensures AgentKey !in config ==> ResolveProfile(config) == ResolveProfile(config[AgentKey := map[]])
    ensures ResolveProfile(config[other := entry]) == ResolveProfile(config)
    ensures ResolveProfile(config[AgentKey := AgentEntry(config)["llm" := llm]]) == ResolveProfile(config)
  {
  }

  /** `bool(v)` is false: `None` or the empty string. */
  predicate IsFalsy(v: Value) {
    v == NoneValue || v == Str("")
  }

  /** `crew_inputs.get(key)`. */
  function GetInput(inputs: map<string, Value>, key: string): Value {
    if key in inputs then inputs[key] else NoneValue
  }

  /** The dictionary a response is returned as. */
  function AsRecord(r: Response): map<string, Field> {
    match r
    case Success(summary) => map["success" := BoolField(true), "summary" := StrField(summary)]
    case ServiceError(error, details) => map["error" := StrField(error), "details" := StrField(details)]
  }

  /** The two record shapes have disjoint key sets, so no record mixes success
      and error fields; `result.get('success')` is true exactly for a
      success. */
  lemma RecordShapesDisjoint(r: Response, r': Response)
    requires r.Success? && r'.ServiceError?
    ensures AsRecord(r).Keys == {"success", "summary"}
    ensures AsRecord(r').Keys == {"error", "details"}
    ensures AsRecord(r).Keys !! AsRecord(r').Keys
    ensures "success" in AsRecord(r) && AsRecord(r)["success"] == BoolField(true)
    ensures "success" !in AsRecord(r')
  {
    assert "success" in AsRecord(r).Keys && "summary" in AsRecord(r).Keys;
    assert "error" in AsRecord(r').Keys && "details" in AsRecord(r').Keys;
  }

  /** A single-participant hierarchy: the crew's only agent is its manager,
      runs its one task, and the rate and time guards are the fixed constants. */
  predicate SelfManagedCrew(c: CrewSpec, a: Agent) {
    && c.agents == [a] && c.manager == a && c.manager in c.agents
    && c.process == Hierarchical
    && |c.tasks| == 1 && c.tasks[0].agent in c.agents
    && c.maxRpm == MaxRpm && c.taskTimeout == TaskTimeout
  }

  class WebSummarizer {
    const crewInputs: map<string, Value>
    const llm: Llm
    const tools: seq<Tool>
    const agent: Agent

    /** `crew_inputs or {}`, the LLM wrapper, the four tools in their fixed
        order, and the agent built from the resolved profile. The agents
        configuration is given already parsed. */
    constructor (inputs: Option<map<string, Value>>, agentsConfig: map<string, map<string, string>>, apiKey: Option<string>)
      ensures crewInputs == (if inputs.Some? then inputs.value else map[])
      ensures llm == Llm("google", "gemini-pro", 0.1, apiKey)
      ensures tools == Tools && |tools| == 4
      ensures var p := ResolveProfile(agentsConfig);
        agent == Agent(p.role, p.goal, p.backstory, llm, tools)
    {
      crewInputs := if inputs.Some? then inputs.value else map[];
      llm := Llm("google", "gemini-pro", 0.1, apiKey);
      tools := Tools;
      var p := ResolveProfile(agentsConfig);
      agent := Agent(p.role, p.goal, p.backstory, Llm("google", "gemini-pro", 0.1, apiKey), Tools);
    }

    /** The crew `handle_request` builds for `query`. */
    function BuildCrew(query: string): (c: CrewSpec)
      ensures SelfManagedCrew(c, agent)
      ensures c.tasks == [Task(query, agent, ExpectedOutput)]
    {
      CrewSpec([agent], [Task(query, agent, ExpectedOutput)], Hierarchical, agent, MaxRpm, TaskTimeout)
    }

    /** `handle_request(url, query)`: the response for the outcome of running
        the crew built for `query`; every exception becomes a service error
        carrying its message, so nothing is raised. */
    function HandleRequest(url: Value, query: string, kickoff: CrewSpec -> Outcome): (r: Response)
      ensures r.Success? <==> kickoff(BuildCrew(query)).Ok?
      ensures r.Success? ==> r.summary == kickoff(BuildCrew(query)).summary
      ensures r.ServiceError? ==>
        r.error == ServiceErrorKind && r.details == kickoff(BuildCrew(query)).message
    {
      match kickoff(BuildCrew(query))
      case Ok(summary) => Success(summary)
      case Raised(message) => ServiceError(ServiceErrorKind, message)
    }

    /** `run()`: raises `ValueError` exactly when the query is missing or
        falsy; otherwise the response of `handle_request` for it. */
    function Run(kickoff: CrewSpec -> Outcome): (r: RunResult)
      ensures r.ValueError? <==> IsFalsy(GetInput(crewInputs, "query"))
      ensures r.ValueError? ==> r.message == MissingQuery
      ensures r.Returned? ==> GetInput(crewInputs, "query").Str?
      ensures r.Returned? ==>
        r.response == HandleRequest(GetInput(crewInputs, "url"), GetInput(crewInputs, "query").s, kickoff)
    {
      var query := GetInput(crewInputs, "query");
      if IsFalsy(query) then ValueError(MissingQuery)
      else Returned(HandleRequest(GetInput(crewInputs, "url"), query.s, kickoff))
    }
  }

  /** The `url` argument of `handle_request` is never used. */
  lemma UrlIsIgnored(ws: WebSummarizer, url: Value, url': Value, query: string, kickoff: CrewSpec -> Outcome)
    ensures ws.HandleRequest(url, query, kickoff) == ws.HandleRequest(url', query, kickoff)
  {
  }

  /** A rejected run builds no task and no crew: its result does not depend on
      what running a crew would do. */
  lemma RejectedRunNeverKicksOff(ws: WebSummarizer, kickoff: CrewSpec -> Outcome, kickoff': CrewSpec -> Outcome)
    requires IsFalsy(GetInput(ws.crewInputs, "query"))
    ensures ws.Run(kickoff) == ws.Run(kickoff') == ValueError(MissingQuery)
  {
  }

  /** An accepted run hands the backend exactly one crew, the one built for
      the query, and never raises. */
  lemma AcceptedRunUsesOneCrew(ws: WebSummarizer, kickoff: CrewSpec -> Outcome, kickoff': CrewSpec -> Outcome)
    requires !IsFalsy(GetInput(ws.crewInputs, "query"))
    requires kickoff(ws.BuildCrew(GetInput(ws.crewInputs, "query").s)) ==
             kickoff'(ws.BuildCrew(GetInput(ws.crewInputs, "query").s))
    ensures ws.Run(kickoff).Returned?
    ensures ws.Run(kickoff) == ws.Run(kickoff')
  {
  }

  /** A whitespace-only query is accepted: the check is falsiness, not a
      trimmed emptiness. */
  lemma WhitespaceQueryAccepted(ws: WebSummarizer, kickoff: CrewSpec -> Outcome)
    requires GetInput(ws.crewInputs, "query") == Str("   ")
    ensures ws.Run(kickoff).Returned?
  {
  }

  /** `crew_inputs=None` is treated as `{}` and so every run raises. */
  lemma NoInputsRejected(ws: WebSummarizer, kickoff: CrewSpec -> Outcome)
    requires ws.crewInputs == map[]
    ensures ws.Run(kickoff) == ValueError(MissingQuery)
  {
  }
}
