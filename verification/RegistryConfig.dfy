/** The registry configuration of a cluster: the patch for a plan, and reading back certificates that the
    server redacts. */
module RegistryConfig {
  import opened Wrappers

  datatype Location = Location(domainName: Attribute<string>, insecure: Attribute<bool>)

  type CaMap = map<string, string>

  /** Import locations are absent (None) or a list, possibly empty. */
  datatype Config = Config(
    allowed: Attribute<seq<string>>,
    blocked: Attribute<seq<string>>,
    insecure: Attribute<seq<string>>,
    forImport: Option<seq<Location>>,
    ca: Attribute<CaMap>,
    allowlistId: Attribute<string>)

  /** A missing configuration reads as one with nothing set. */
  function OrNothing(c: Option<Config>): Config {
    if c.Some? then c.value else Config(Null, Null, Null, None, Null, Null)
  }

  datatype SentLocation = SentLocation(domainName: string, insecure: bool)

  function Sent(locations: seq<Location>): seq<SentLocation> {
    seq(|locations|, i requires 0 <= i < |locations| =>
      SentLocation(locations[i].domainName.GetOr(""), locations[i].insecure.GetOr(false)))
  }

  /** A patch: what is set goes to the server. */
  datatype Patch = Patch(
    sources: Option<Sources>,
    forImport: Option<seq<SentLocation>>,
    ca: Option<CaMap>,
    allowlistId: Option<string>)

  datatype Sources = Sources(allowed: Option<seq<string>>, blocked: Option<seq<string>>, insecure: Option<seq<string>>)

  const EMPTY_PATCH := Patch(None, None, None, None)

  class SourcesBuilder {
    var allowed: Option<seq<string>>
    var blocked: Option<seq<string>>
    var insecure: Option<seq<string>>

    constructor ()
      ensures Contents() == Sources(None, None, None)
    {
      allowed, blocked, insecure := None, None, None;
    }

    function Contents(): Sources
      reads this
    {
      Sources(allowed, blocked, insecure)
    }
  }

  class ConfigBuilder {
    var sources: Option<Sources>
    var forImport: Option<seq<SentLocation>>
    var ca: Option<CaMap>
    var allowlistId: Option<string>

    constructor ()
      ensures Contents() == EMPTY_PATCH
    {
      sources, forImport, ca, allowlistId := None, None, None, None;
    }

    function Contents(): Patch
      reads this
    {
      Patch(sources, forImport, ca, allowlistId)
    }
  }

  // What changed

  /** Lists and maps are compared by their elements: absent, unknown and empty are alike. */
  predicate ListChanged(state: Attribute<seq<string>>, plan: Attribute<seq<string>>) {
    state.GetOr([]) != plan.GetOr([])
  }

  predicate CaChanged(state: Attribute<CaMap>, plan: Attribute<CaMap>) {
    state.GetOr(map[]) != plan.GetOr(map[])
  }

  /** A plan that leaves the id open changes nothing. */
  predicate IdChanged(state: Attribute<string>, plan: Attribute<string>) {
    plan.Known? && state != plan
  }

  /** Absent differs from empty here. */
  method ShouldPatchRegistryAllowedForImport(state: Option<Config>, plan: Option<Config>) returns (r: bool)
    ensures r <==> OrNothing(state).forImport != OrNothing(plan).forImport
  {
    if state.None? && plan.None? {
      return false;
    }
    var locationsState, locationsPlan := OrNothing(state).forImport, OrNothing(plan).forImport;
    if locationsState.None? != locationsPlan.None? {
      return true;
    }
    if locationsState.Some? {
      if |locationsState.value| != |locationsPlan.value| {
        return true;
      }
      for i := 0 to |locationsState.value|
        invariant locationsState.value[..i] == locationsPlan.value[..i]
      {
        var s, p := locationsState.value[i], locationsPlan.value[i];
        if s.domainName != p.domainName || s.insecure != p.insecure {
          return true;
        }
      }
      assert locationsState.value == locationsState.value[..|locationsState.value|];
      assert locationsPlan.value == locationsPlan.value[..|locationsPlan.value|];
    }
    return false;
  }

  /** A location without a domain is sent with an empty one, and one without the flag as secure. */
  method FillAllowedRegistriesForImport(plan: Config, registryConfig: ConfigBuilder)
    modifies registryConfig`forImport
    ensures registryConfig.forImport == Some(Sent(plan.forImport.GetOr([])))
    ensures var (locations, sent) := (plan.forImport.GetOr([]), registryConfig.forImport.value);
            && |sent| == |locations|
            && forall i :: 0 <= i < |sent| ==>
                 && sent[i].domainName == (if locations[i].domainName.Known? then locations[i].domainName.value else "")
                 && (sent[i].insecure <==> locations[i].insecure == Known(true))
  {
    var locations, locationBuilder := plan.forImport.GetOr([]), [];
    for i := 0 to |locations|
      invariant locationBuilder == Sent(locations[..i])
    {
      var (domainName, insecure) := (locations[i].domainName.GetOr(""), locations[i].insecure.GetOr(false));
      locationBuilder := locationBuilder + [SentLocation(domainName, insecure)];
    }
    assert locations[..|locations|] == locations;
    registryConfig.forImport := Some(locationBuilder);
  }

  /** A list without a value is sent as an empty one for the allowed and blocked registries, and not at all
      for the insecure ones. */
  method FillSources(state: Config, plan: Config) returns (sources: SourcesBuilder)
    ensures fresh(sources)
    ensures sources.Contents() == SourcesOf(state, plan)
  {
    sources := new SourcesBuilder();
    if ListChanged(state.allowed, plan.allowed) {
      sources.allowed := Some(plan.allowed.GetOr([]));
    }
    if ListChanged(state.blocked, plan.blocked) {
      sources.blocked := Some(plan.blocked.GetOr([]));
    }
    if ListChanged(state.insecure, plan.insecure) {
      if plan.insecure.HasValue() {
        sources.insecure := Some(plan.insecure.value);
      }
    }
  }

  function SourcesOf(state: Config, plan: Config): Sources {
    Sources(
      if ListChanged(state.allowed, plan.allowed) then Some(plan.allowed.GetOr([])) else None,
      if ListChanged(state.blocked, plan.blocked) then Some(plan.blocked.GetOr([])) else None,
      if ListChanged(state.insecure, plan.insecure) && plan.insecure.Known? then Some(plan.insecure.value) else None)
  }

  predicate SourcesChanged(state: Config, plan: Config) {
    ListChanged(state.allowed, plan.allowed) || ListChanged(state.blocked, plan.blocked) ||
      ListChanged(state.insecure, plan.insecure)
  }

  function PatchOf(state: Config, plan: Config): Patch {
    Patch(
      if SourcesChanged(state, plan) then Some(SourcesOf(state, plan)) else None,
      if state.forImport != plan.forImport then Some(Sent(plan.forImport.GetOr([]))) else None,
      if CaChanged(state.ca, plan.ca) then Some(plan.ca.GetOr(map[])) else None,
      if IdChanged(state.allowlistId, plan.allowlistId) then Some(plan.allowlistId.value) else None)
  }

  /** No builder comes back when the function crashes, which is exactly when the plan is missing and the
      state has import locations. */
  method UpdateRegistryConfigBuilder(state: Option<Config>, plan: Option<Config>) returns (r: Option<Patch>)
    ensures r.None? <==> plan.None? && state.Some? && state.value.forImport.Some?
    ensures r.Some? ==> r.value == PatchOf(OrNothing(state), OrNothing(plan))
  {
    var s, p := OrNothing(state), OrNothing(plan);
    var registryConfig := new ConfigBuilder();
    if SourcesChanged(s, p) {
      var sources := FillSources(s, p);
      registryConfig.sources := Some(sources.Contents());
    }
    var locationsChanged := ShouldPatchRegistryAllowedForImport(state, plan);
    if locationsChanged {
      if plan.None? {
        return None;
      }
      FillAllowedRegistriesForImport(plan.value, registryConfig);
    }
    if CaChanged(s.ca, p.ca) {
      registryConfig.ca := Some(p.ca.GetOr(map[]));
    }
    if IdChanged(s.allowlistId, p.allowlistId) {
      registryConfig.allowlistId := Some(p.allowlistId.value);
    }
    r := Some(registryConfig.Contents());
  }

  // What a patch achieves

  /** The server's side of a configuration. */
  datatype Server = Server(
    allowed: seq<string>,
    blocked: seq<string>,
    insecure: seq<string>,
    forImport: seq<SentLocation>,
    ca: CaMap,
    allowlistId: string)

  function Applied(server: Server, patch: Patch): Server {
    var sources := if patch.sources.Some? then patch.sources.value else Sources(None, None, None);
    Server(
      sources.allowed.GetOr(server.allowed),
      sources.blocked.GetOr(server.blocked),
      sources.insecure.GetOr(server.insecure),
      patch.forImport.GetOr(server.forImport),
      patch.ca.GetOr(server.ca),
      patch.allowlistId.GetOr(server.allowlistId))
  }

  /** The server holds what the configuration says; an open allowlist id says nothing. */
  predicate Holds(server: Server, c: Config) {
    && server.allowed == c.allowed.GetOr([])
    && server.blocked == c.blocked.GetOr([])
    && server.insecure == c.insecure.GetOr([])
    && server.forImport == Sent(c.forImport.GetOr([]))
    && server.ca == c.ca.GetOr(map[])
    && (c.allowlistId.Known? ==> server.allowlistId == c.allowlistId.value)
  }

  /** Nothing is sent exactly when state and plan agree. */
  lemma PatchIsEmptyIff(state: Config, plan: Config)
    ensures PatchOf(state, plan) == EMPTY_PATCH <==>
              && state.allowed.GetOr([]) == plan.allowed.GetOr([])
              && state.blocked.GetOr([]) == plan.blocked.GetOr([])
              && state.insecure.GetOr([]) == plan.insecure.GetOr([])
              && state.forImport == plan.forImport
              && state.ca.GetOr(map[]) == plan.ca.GetOr(map[])
              && (plan.allowlistId.Known? ==> state.allowlistId == plan.allowlistId)
  {
  }

  /** What is sent is what the plan says, and only where it differs from the state. */
  lemma PatchSendsTheChangesOnly(state: Config, plan: Config)
    ensures var patch := PatchOf(state, plan);
            var sources := patch.sources.GetOr(Sources(None, None, None));
            && (sources.allowed.Some? <==> state.allowed.GetOr([]) != plan.allowed.GetOr([]))
            && (sources.blocked.Some? <==> state.blocked.GetOr([]) != plan.blocked.GetOr([]))
            && (sources.insecure.Some? <==> state.insecure.GetOr([]) != plan.insecure.GetOr([]) && plan.insecure.Known?)
            && (patch.forImport.Some? <==> state.forImport != plan.forImport)
            && (patch.ca.Some? <==> state.ca.GetOr(map[]) != plan.ca.GetOr(map[]))
            && (patch.allowlistId.Some? <==> plan.allowlistId.Known? && state.allowlistId != plan.allowlistId)
    ensures var patch := PatchOf(state, plan);
            var sources := patch.sources.GetOr(Sources(None, None, None));
            && (sources.allowed.Some? ==> sources.allowed.value == plan.allowed.GetOr([]))
            && (sources.blocked.Some? ==> sources.blocked.value == plan.blocked.GetOr([]))
            && (sources.insecure.Some? ==> plan.insecure == Known(sources.insecure.value))
            && (patch.ca.Some? ==> patch.ca.value == plan.ca.GetOr(map[]))
            && (patch.allowlistId.Some? ==> plan.allowlistId == Known(patch.allowlistId.value))
  {
  }

  /** The patch brings a server that the state describes to the plan, exactly unless the plan drops the list
      of insecure registries while the server has some: that list stays. */
  lemma PatchReachesThePlanIff(server: Server, state: Config, plan: Config)
    requires Holds(server, state)
    ensures Holds(Applied(server, PatchOf(state, plan)), plan) <==> plan.insecure.Known? || server.insecure == []
  {
  }

  // Reading certificates back

  /** A key the state knows keeps its value there; the server's answer may be redacted. */
  function ReadBackCa(response: CaMap, original: Attribute<CaMap>): CaMap {
    map k | k in response :: if k in original.GetOr(map[]) then original.GetOr(map[])[k] else response[k]
  }

  ghost predicate Converted(response: CaMap, original: CaMap, left: set<string>, elements: CaMap) {
    && elements.Keys == response.Keys - left
    && forall k :: k in elements ==> elements[k] == if k in original then original[k] else response[k]
  }

  lemma OneMoreConverted(response: CaMap, original: CaMap, left: set<string>, elements: CaMap, k: string)
    requires Converted(response, original, left, elements) && left <= response.Keys && k in left
    ensures Converted(response, original, left - {k}, elements[k := if k in original then original[k] else response[k]])
  {
  }

  method ConvertCaMapToMapType(response: CaMap, originalState: Attribute<CaMap>) returns (elements: CaMap)
    ensures elements == ReadBackCa(response, originalState)
  {
    elements := map[];
    var original, left := originalState.GetOr(map[]), response.Keys;
    while left != {}
      invariant left <= response.Keys && Converted(response, original, left, elements)
      decreases |left|
    {
      var k :| k in left;
      OneMoreConverted(response, original, left, elements, k);
      if k in original {
        elements := elements[k := original[k]];
      } else {
        elements := elements[k := response[k]];
      }
      left := left - {k};
    }
  }

  /** An answer without certificates leaves the state as it is. */
  function AfterRead(ca: Attribute<CaMap>, response: Option<CaMap>): Attribute<CaMap> {
    if response.Some? then Known(ReadBackCa(response.value, ca)) else ca
  }

  function AfterReads(ca: Attribute<CaMap>, responses: seq<Option<CaMap>>): Attribute<CaMap>
    decreases |responses|
  {
    if responses == [] then ca
    else AfterReads(AfterRead(ca, responses[0]), responses[1..])
  }

  /** A certificate keeps the value it has in the state as long as its key is in every answer. */
  lemma {:induction false} CertificateIsKept(ca: Attribute<CaMap>, responses: seq<Option<CaMap>>, k: string)
    requires k in ca.GetOr(map[])
    requires forall i :: 0 <= i < |responses| && responses[i].Some? ==> k in responses[i].value
    ensures k in AfterReads(ca, responses).GetOr(map[]) && AfterReads(ca, responses).GetOr(map[])[k] == ca.value[k]
    decreases |responses|
  {
    if responses != [] {
      CertificateIsKept(AfterRead(ca, responses[0]), responses[1..], k);
    }
  }

  /** So answers with the plan's keys never call for a patch, whatever values they carry. */
  lemma RedactedAnswersNeedNoPatch(state: Config, responses: seq<Option<CaMap>>)
    requires state.ca.Known?
    requires forall i :: 0 <= i < |responses| && responses[i].Some? ==> responses[i].value.Keys == state.ca.value.Keys
    ensures PatchOf(state.(ca := AfterReads(state.ca, responses)), state) == EMPTY_PATCH
  {
    forall k | k in state.ca.value
      ensures k in AfterReads(state.ca, responses).GetOr(map[])
      ensures AfterReads(state.ca, responses).GetOr(map[])[k] == state.ca.value[k]
    {
      CertificateIsKept(state.ca, responses, k);
    }
    KeysComeFromAnswers(state.ca, responses, state.ca.value.Keys);
    assert AfterReads(state.ca, responses).GetOr(map[]) == state.ca.value;
  }

  lemma {:induction false} KeysComeFromAnswers(ca: Attribute<CaMap>, responses: seq<Option<CaMap>>, keys: set<string>)
    requires ca.Known? && ca.value.Keys <= keys
    requires forall i :: 0 <= i < |responses| && responses[i].Some? ==> responses[i].value.Keys <= keys
    ensures AfterReads(ca, responses).Known? && AfterReads(ca, responses).value.Keys <= keys
    decreases |responses|
  {
    if responses != [] {
      KeysComeFromAnswers(AfterRead(ca, responses[0]), responses[1..], keys);
    }
  }

  /** A certificate that an answer omits is lost: when its key comes back, it has the server's value. */
  lemma {:induction false} OmittedCertificateIsLost(ca: Attribute<CaMap>, before: seq<Option<CaMap>>, without: CaMap,
                                                    withKey: CaMap, k: string)
    requires k !in without && k in withKey
    ensures var after := AfterReads(ca, before + [Some(without), Some(withKey)]);
            after.Known? && k in after.value && after.value[k] == withKey[k]
    decreases |before|
  {
    var all := before + [Some(without), Some(withKey)];
    if before == [] {
      var lost := AfterRead(ca, Some(without));
      assert all[1..] == [Some(withKey)] && all[1..][1..] == [];
      assert AfterReads(ca, all) == AfterReads(lost, all[1..]) == AfterRead(lost, Some(withKey));
    } else {
      assert all[1..] == before[1..] + [Some(without), Some(withKey)];
      OmittedCertificateIsLost(AfterRead(ca, before[0]), before[1..], without, withKey, k);
    }
  }

  // Reading the whole configuration back

  datatype ReadLocation = ReadLocation(domainName: Option<string>, insecure: Option<bool>)

  /** What the server answers with; empty parts may be missing from it. */
  datatype Answer = Answer(
    sources: Option<Sources>,
    forImport: Option<seq<ReadLocation>>,
    ca: Option<CaMap>,
    allowlistId: Option<string>)

  class RegistryState {
    var config: Config

    constructor ()
      ensures config == OrNothing(None)
    {
      config := OrNothing(None);
    }
  }

  function ReadBackLocation(l: ReadLocation): Location {
    if l.domainName.None? then Location(Null, Null)
    else Location(Known(l.domainName.value), Known(l.insecure.GetOr(false)))
  }

  function ReadBackLocations(ls: seq<ReadLocation>): seq<Location> {
    seq(|ls|, i requires 0 <= i < |ls| => ReadBackLocation(ls[i]))
  }

  function Latest<T>(answer: Option<T>, had: Attribute<T>): Attribute<T> {
    if answer.Some? then Known(answer.value) else had
  }

  /** Missing parts leave the state as it is, except for the import locations, which become absent. */
  function ReadBack(answer: Option<Answer>, had: Config): Config {
    if answer.None? then had
    else
      var a := answer.value;
      var sources := a.sources.GetOr(Sources(None, None, None));
      Config(
        Latest(sources.allowed, had.allowed),
        Latest(sources.blocked, had.blocked),
        Latest(sources.insecure, had.insecure),
        if a.forImport.Some? then Some(ReadBackLocations(a.forImport.value)) else None,
        AfterRead(had.ca, a.ca),
        Latest(a.allowlistId, had.allowlistId))
  }

  /** Without a state to fill the answer goes into a new one that the caller never sees. */
  method PopulateRegistryConfigState(answer: Option<Answer>, state: RegistryState?)
    modifies state
    ensures state != null ==> state.config == ReadBack(answer, old(state.config))
  {
    if answer.None? {
      return;
    }
    var s := state;
    if s == null {
      s := new RegistryState();
    }
    if answer.value.sources.Some? {
      var sources := answer.value.sources.value;
      if sources.allowed.Some? {
        s.config := s.config.(allowed := Known(sources.allowed.value));
      }
      if sources.blocked.Some? {
        s.config := s.config.(blocked := Known(sources.blocked.value));
      }
      if sources.insecure.Some? {
        s.config := s.config.(insecure := Known(sources.insecure.value));
      }
    }
    if answer.value.forImport.Some? {
      var locations := FillLocations(answer.value.forImport.value);
      s.config := s.config.(forImport := Some(locations));
    } else {
      s.config := s.config.(forImport := None);
    }
    if answer.value.ca.Some? {
      var ca := ConvertCaMapToMapType(answer.value.ca.value, s.config.ca);
      s.config := s.config.(ca := Known(ca));
    }
    if answer.value.allowlistId.Some? {
      s.config := s.config.(allowlistId := Known(answer.value.allowlistId.value));
    }
  }

  class HostedCluster {
    var registryConfig: RegistryState?
  }

  /** Reading a cluster fills the configuration its state has; when it has none, it still has none then,
      whatever the server answered. */
  method PopulateHostedCluster(answer: Option<Answer>, state: HostedCluster)
    modifies state.registryConfig
    ensures state.registryConfig == old(state.registryConfig)
    ensures state.registryConfig != null ==>
              state.registryConfig.config == ReadBack(answer, old(state.registryConfig.config))
  {
    PopulateRegistryConfigState(answer, state.registryConfig);
  }

  method FillLocations(registryLocations: seq<ReadLocation>) returns (locations: seq<Location>)
    ensures locations == ReadBackLocations(registryLocations)
    ensures forall i :: 0 <= i < |registryLocations| ==>
              var l := registryLocations[i];
              locations[i] == if l.domainName.None? then Location(Null, Null)
                              else Location(Known(l.domainName.value),
                                            Known(if l.insecure.Some? then l.insecure.value else false))
  {
    locations := [];
    for i := 0 to |registryLocations|
      invariant locations == ReadBackLocations(registryLocations[..i])
    {
      var location := Location(Null, Null);
      if registryLocations[i].domainName.Some? {
        location := location.(domainName := Known(registryLocations[i].domainName.value));
        if registryLocations[i].insecure.Some? {
          location := location.(insecure := Known(registryLocations[i].insecure.value));
        } else {
          location := location.(insecure := Known(false));
        }
      }
      locations := locations + [location];
    }
    assert registryLocations[..|registryLocations|] == registryLocations;
  }

  predicate ShowsList(answer: Option<seq<string>>, list: seq<string>) {
    answer.GetOr([]) == list
  }

  predicate ShowsLocations(answer: Option<seq<ReadLocation>>, locations: seq<SentLocation>) {
    var ls := answer.GetOr([]);
    && |ls| == |locations|
    && forall i :: 0 <= i < |ls| ==>
         ls[i].domainName == Some(locations[i].domainName) && ls[i].insecure.GetOr(false) == locations[i].insecure
  }

  /** The answer shows the server's configuration, with certificates of any value and empty parts left out
      or not. */
  predicate Shows(answer: Answer, server: Server) {
    var sources := answer.sources.GetOr(Sources(None, None, None));
    && ShowsList(sources.allowed, server.allowed)
    && ShowsList(sources.blocked, server.blocked)
    && ShowsList(sources.insecure, server.insecure)
    && ShowsLocations(answer.forImport, server.forImport)
    && answer.ca.GetOr(map[]).Keys == server.ca.Keys
    && (answer.allowlistId.Some? ==> answer.allowlistId.value == server.allowlistId)
  }

  /** A read shows what the server holds, whatever the state had before: each list exactly if the answer has it or the
      state had none, since an empty list may be left out of the answer; the import locations, with their flags, if
      the answer has them; and the allowlist. */
  lemma ReadShowsTheServerIff(server: Server, had: Config, answer: Answer)
    requires Shows(answer, server)
    ensures var (read, sources) := (ReadBack(Some(answer), had), answer.sources.GetOr(Sources(None, None, None)));
            && (read.allowed.GetOr([]) == server.allowed <==> sources.allowed.Some? || had.allowed.GetOr([]) == [])
            && (read.blocked.GetOr([]) == server.blocked <==> sources.blocked.Some? || had.blocked.GetOr([]) == [])
            && (read.insecure.GetOr([]) == server.insecure <==> sources.insecure.Some? || had.insecure.GetOr([]) == [])
            && read.allowlistId == (if answer.allowlistId.Some? then Known(server.allowlistId) else had.allowlistId)
            && (read.forImport.Some? <==> answer.forImport.Some?)
            && (read.forImport.Some? ==> Sent(read.forImport.value) == server.forImport)
            && (answer.ca.Some? ==> read.ca.Known? && read.ca.value.Keys == server.ca.Keys)
  {
  }

  /** Once the server holds the plan, reading it back calls for no further patch, exactly if the answer has
      import locations just when the plan has, and the plan leaves no field of them open. */
  lemma ReadBackSettlesIff(server: Server, plan: Config, answer: Answer)
    requires Holds(server, plan) && Shows(answer, server)
    ensures PatchOf(ReadBack(Some(answer), plan), plan) == EMPTY_PATCH <==>
              && (plan.forImport.Some? <==> answer.forImport.Some?)
              && forall l :: l in plan.forImport.GetOr([]) ==> l.domainName.Known? && l.insecure.Known?
  {
    var read := ReadBack(Some(answer), plan);
    PatchIsEmptyIff(read, plan);
    assert read.ca.GetOr(map[]) == plan.ca.GetOr(map[]);
    if plan.forImport.Some? && answer.forImport.Some? {
      ReadLocationsAgreeIff(answer.forImport.value, plan.forImport.value);
    }
  }

  lemma ReadLocationsAgreeIff(answer: seq<ReadLocation>, plan: seq<Location>)
    requires ShowsLocations(Some(answer), Sent(plan))
    ensures ReadBackLocations(answer) == plan <==> forall l :: l in plan ==> l.domainName.Known? && l.insecure.Known?
  {
    forall i | 0 <= i < |plan|
      ensures ReadBackLocations(answer)[i] == plan[i] <==> plan[i].domainName.Known? && plan[i].insecure.Known?
    {
      assert Sent(plan)[i].domainName == plan[i].domainName.GetOr("");
    }
    if forall l :: l in plan ==> l.domainName.Known? && l.insecure.Known? {
      assert forall i :: 0 <= i < |plan| ==> plan[i] in plan;
    }
  }
}
