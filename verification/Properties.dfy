/** Cluster properties: those the provider reserves (its OCM defaults) and the user's own. They are sent
    together and split again on read-back. */
module Properties {
  import opened Wrappers

  type Props = map<string, string>

  const CREATOR_ARN := "rosa_creator_arn"

  /** `kept` is the part of `props` walked so far, without the dropped keys. */
  ghost predicate Walked(props: Props, left: set<string>, dropped: set<string>, kept: Props) {
    kept.Keys == props.Keys - left - dropped && forall k :: k in kept ==> kept[k] == props[k]
  }

  lemma OneMoreWalked(props: Props, left: set<string>, dropped: set<string>, kept: Props, k: string)
    requires Walked(props, left, dropped, kept) && k in left && k in props
    ensures k in dropped ==> Walked(props, left - {k}, dropped, kept)
    ensures k !in dropped ==> Walked(props, left - {k}, dropped, kept[k := props[k]])
  {
  }

  lemma AllWalked(props: Props, dropped: set<string>, kept: Props)
    requires Walked(props, {}, dropped, kept)
    ensures kept == props - dropped
  {
  }

  class ClusterState {
    var properties: Attribute<Props>
    var ocmProperties: Attribute<Props>

    /** Splits what the server returned; without properties in the answer the state stays as it is. */
    method Populate(response: Option<Props>, ocm: Props)
      modifies this
      ensures response.None? ==> properties == old(properties) && ocmProperties == old(ocmProperties)
      ensures response.Some? ==>
                properties == Known(response.value - ocm.Keys) && ocmProperties == Known(response.value)
    {
      if response.Some? {
        var props := response.value;
        var propertiesMap: Props, ocmPropertiesMap: Props := map[], map[];
        var left := props.Keys;
        while left != {}
          invariant left <= props.Keys
          invariant Walked(props, left, {}, ocmPropertiesMap) && Walked(props, left, ocm.Keys, propertiesMap)
          decreases |left|
        {
          var k :| k in left;
          OneMoreWalked(props, left, {}, ocmPropertiesMap, k);
          OneMoreWalked(props, left, ocm.Keys, propertiesMap, k);
          ocmPropertiesMap := ocmPropertiesMap[k := props[k]];
          if k !in ocm {
            propertiesMap := propertiesMap[k := props[k]];
          }
          left := left - {k};
        }
        AllWalked(props, {}, ocmPropertiesMap);
        AllWalked(props, ocm.Keys, propertiesMap);
        assert props - {} == props;
        properties, ocmProperties := Known(propertiesMap), Known(ocmPropertiesMap);
      }
    }
  }

  ghost predicate Overlaid(onto: Props, entries: Props, left: set<string>, r: Props) {
    && r.Keys == onto.Keys + (entries.Keys - left)
    && forall k :: k in r ==> r[k] == if k in entries && k !in left then entries[k] else onto[k]
  }

  lemma OneMoreOverlaid(onto: Props, entries: Props, left: set<string>, r: Props, k: string)
    requires left <= entries.Keys && Overlaid(onto, entries, left, r) && k in left
    ensures Overlaid(onto, entries, left - {k}, r[k := entries[k]])
  {
  }

  lemma AllOverlaid(onto: Props, entries: Props, r: Props)
    requires Overlaid(onto, entries, {}, r)
    ensures r == onto + entries
  {
  }

  /** Adds the entries one by one; they win over what was there. */
  method Overlay(onto: Props, entries: Props) returns (r: Props)
    ensures r == onto + entries
  {
    r := onto;
    var left := entries.Keys;
    while left != {}
      invariant left <= entries.Keys && Overlaid(onto, entries, left, r)
      decreases |left|
    {
      var k :| k in left;
      OneMoreOverlaid(onto, entries, left, r, k);
      r, left := r[k := entries[k]], left - {k};
    }
    AllOverlaid(onto, entries, r);
  }

  /** The properties of a new cluster; the user's map, when there is one, must name a valid creator. */
  method CreateProperties(ocm: Props, plan: Attribute<Props>, isUserArn: string -> bool) returns (r: Option<Props>)
    ensures plan.Known? ==> (r.Some? <==> CREATOR_ARN in plan.value && isUserArn(plan.value[CREATOR_ARN]))
    ensures r == None || r == Some(ocm + plan.GetOr(map[]))
    ensures !plan.Known? ==> r.Some?
  {
    var properties := Overlay(map[], ocm);
    assert map[] + ocm == ocm;
    if plan.HasValue() {
      if CREATOR_ARN !in plan.value || !isUserArn(plan.value[CREATOR_ARN]) {
        return None;
      }
      properties := Overlay(properties, plan.value);
    }
    assert ocm + map[] == ocm;
    r := Some(properties);
  }

  // Deciding to patch

  /** What counts as up to date: the user's properties are the planned ones, and the rest of what the server
      holds is exactly the reserved set. Absent and unknown maps read as empty. */
  predicate UpToDate(ocm: Props, state: Attribute<Props>, stateOcm: Attribute<Props>, plan: Attribute<Props>) {
    && state.GetOr(map[]) == plan.GetOr(map[])
    && stateOcm.GetOr(map[]) - state.GetOr(map[]).Keys == ocm
  }

  lemma {:induction false} SubsetOfSameSize<T>(a: set<T>, b: set<T>)
    requires a <= b && |a| == |b|
    ensures a == b
  {
    if x :| x in b && x !in a {
      SizeOfSubset(a, b - {x});
    }
  }

  lemma {:induction false} SizeOfSubset<T>(a: set<T>, b: set<T>)
    requires a <= b
    ensures |a| <= |b|
  {
    if x :| x in a {
      SizeOfSubset(a - {x}, b - {x});
    }
  }

  lemma SameSizeAndIncluded(a: Props, b: Props)
    requires |a| == |b| && forall k :: k in a ==> k in b && b[k] == a[k]
    ensures a == b
  {
    assert |a.Keys| == |a| && |b.Keys| == |b|;
    SubsetOfSameSize(a.Keys, b.Keys);
  }

  /** What the state holds beside the user's own properties. */
  method ExtractDefaults(all: Props, own: Props) returns (extractedDefaults: Props)
    ensures extractedDefaults == all - own.Keys
  {
    extractedDefaults := map[];
    var left := all.Keys;
    while left != {}
      invariant left <= all.Keys && Walked(all, left, own.Keys, extractedDefaults)
      decreases |left|
    {
      var k :| k in left;
      OneMoreWalked(all, left, own.Keys, extractedDefaults, k);
      if k !in own {
        extractedDefaults := extractedDefaults[k := all[k]];
      }
      left := left - {k};
    }
    AllWalked(all, own.Keys, extractedDefaults);
  }

  /** Compares sizes and then looks up every reserved key. */
  method ShouldPatchProperties(ocm: Props, state: ClusterState, plan: ClusterState) returns (should: bool)
    ensures should <==> !UpToDate(ocm, state.properties, state.ocmProperties, plan.properties)
  {
    var own := state.properties.GetOr(map[]);
    if own != plan.properties.GetOr(map[]) {
      return true;
    }
    var extractedDefaults := ExtractDefaults(state.ocmProperties.GetOr(map[]), own);
    if |extractedDefaults| != |ocm| {
      return true;
    }
    var left := ocm.Keys;
    while left != {}
      invariant left <= ocm.Keys
      invariant forall k :: k in ocm && k !in left ==> k in extractedDefaults && extractedDefaults[k] == ocm[k]
      decreases |left|
    {
      var k :| k in left;
      if k !in extractedDefaults || extractedDefaults[k] != ocm[k] {
        return true;
      }
      left := left - {k};
    }
    SameSizeAndIncluded(ocm, extractedDefaults);
    return false;
  }

  /** The patch for a plan: its properties, with the reserved keys put back. */
  function PatchOf(ocm: Props, state: Attribute<Props>, stateOcm: Attribute<Props>,
                   plan: Attribute<Props>): Option<Props>
  {
    if UpToDate(ocm, state, stateOcm, plan) || !plan.Known? then None else Some(plan.value + ocm)
  }

  /** A changed creator is patched all the same: it only draws a warning. */
  method UpdateProperties(ocm: Props, state: ClusterState, plan: ClusterState)
    returns (patch: Option<Props>, warned: bool)
    ensures patch == PatchOf(ocm, state.properties, state.ocmProperties, plan.properties)
    ensures warned ==> patch.Some?
    ensures patch.Some? ==> var (was, now) := (state.properties.GetOr(map[]), plan.properties.value);
              warned <==> CREATOR_ARN in was && CREATOR_ARN in now && was[CREATOR_ARN] != now[CREATOR_ARN]
  {
    patch, warned := None, false;
    var should := ShouldPatchProperties(ocm, state, plan);
    if should && plan.properties.HasValue() {
      var now, was := plan.properties.value, state.properties.GetOr(map[]);
      warned := CREATOR_ARN in now && CREATOR_ARN in was && now[CREATOR_ARN] != was[CREATOR_ARN];
      var elements := Overlay(now, ocm);
      patch := Some(elements);
    }
  }

  // Fixed points. The server holds the last map it was sent.

  function Patched(server: Props, patch: Option<Props>): Props {
    if patch.Some? then patch.value else server
  }

  predicate ReadsUpToDate(ocm: Props, server: Props, plan: Attribute<Props>) {
    UpToDate(ocm, Known(server - ocm.Keys), Known(server), plan)
  }

  /** One update on freshly read state settles a plan exactly when it uses no reserved key, or, with no plan,
      when the server already held only the reserved properties. */
  lemma UpdateSettlesIff(ocm: Props, server: Props, plan: Attribute<Props>)
    ensures var after := Patched(server, PatchOf(ocm, Known(server - ocm.Keys), Known(server), plan));
            ReadsUpToDate(ocm, after, plan) <==> if plan.Known? then plan.value.Keys !! ocm.Keys else server == ocm
  {
    ReadsUpToDateIff(ocm, server, plan);
    if plan.Known? {
      ReadsUpToDateIff(ocm, plan.value + ocm, plan);
    }
  }

  /** Up to date means that the server holds exactly the plan and the reserved properties, key by key. */
  lemma ReadsUpToDateIff(ocm: Props, server: Props, plan: Attribute<Props>)
    ensures ReadsUpToDate(ocm, server, plan) <==>
              plan.GetOr(map[]).Keys !! ocm.Keys && server == plan.GetOr(map[]) + ocm
  {
  }

  /** A new cluster reads up to date exactly when its plan uses no reserved key; on a reserved key creation
      keeps the user's value and the next update overwrites it with the reserved one. */
  lemma CreationSettlesIff(ocm: Props, plan: Attribute<Props>)
    ensures ReadsUpToDate(ocm, ocm + plan.GetOr(map[]), plan) <==> plan.GetOr(map[]).Keys !! ocm.Keys
    ensures forall k :: plan.Known? && k in plan.value && k in ocm ==>
              && (ocm + plan.value)[k] == plan.value[k]
              && PatchOf(ocm, Known(ocm + plan.value - ocm.Keys), Known(ocm + plan.value),
                  plan) == Some(plan.value + ocm)
              && (plan.value + ocm)[k] == ocm[k]
  {
  }

  // Runs: the same plan applied again and again, each time on freshly read state

  function PatchesSent(ocm: Props, server: Props, plan: Attribute<Props>, rounds: nat): nat
    decreases rounds
  {
    if rounds == 0 then 0
    else
      var patch := PatchOf(ocm, Known(server - ocm.Keys), Known(server), plan);
      (if patch.Some? then 1 else 0) + PatchesSent(ocm, Patched(server, patch), plan, rounds - 1)
  }

  /** A plan is sent at most once, and not at all if the server holds it already; but a plan that uses a
      reserved key is sent in every round. */
  lemma {:induction false} SentOnceOrForever(ocm: Props, server: Props, plan: Attribute<Props>, rounds: nat)
    ensures PatchesSent(ocm, server, plan, rounds) ==
              if !plan.Known? || rounds == 0 then 0
              else if !(plan.value.Keys !! ocm.Keys) then rounds
              else if server == plan.value + ocm then 0
              else 1
    decreases rounds
  {
    if rounds > 0 {
      var patch := PatchOf(ocm, Known(server - ocm.Keys), Known(server), plan);
      ReadsUpToDateIff(ocm, server, plan);
      SentOnceOrForever(ocm, Patched(server, patch), plan, rounds - 1);
    }
  }
}
