/** Choosing the version of a new cluster: read every page of the versions offered, sort them, and take the
    first or look for the one asked for. */
module VersionSelection {
  import opened Wrappers
  import opened Paging
  import opened Semver

  datatype Topology = Classic | Hcp

  datatype Release = Release(rawId: string, channelGroup: string, enabled: bool, rosaEnabled: bool, hostedEnabled: bool)

  datatype Error = ApiFailed | NoVersions | NotSupported

  type Parser = string -> Option<Version>

  predicate Offered(r: Release, topology: Topology, channelGroup: string) {
    r.enabled && r.rosaEnabled && r.channelGroup == channelGroup && (topology.Hcp? ==> r.hostedEnabled)
  }

  function OfferedIn(releases: seq<Release>, topology: Topology, channelGroup: string): seq<Release> {
    if releases == [] then []
    else
      (if Offered(releases[0], topology, channelGroup) then [releases[0]] else []) +
      OfferedIn(releases[1..], topology, channelGroup)
  }

  lemma {:induction false} OfferedInSelects(releases: seq<Release>, topology: Topology, channelGroup: string)
    ensures forall r :: r in OfferedIn(releases, topology, channelGroup) <==>
              r in releases && Offered(r, topology, channelGroup)
  {
    if releases != [] {
      OfferedInSelects(releases[1..], topology, channelGroup);
    }
  }

  /** The version server: a fixed list of releases in its own order, searched and read page by page. Any
      request may fail. */
  class VersionServer {
    const releases: seq<Release>
    var requests: nat
    ghost var lost: nat    // how many of them were not answered

    method List(topology: Topology, channelGroup: string, page: nat) returns (r: Option<seq<Release>>)
      requires page >= 1
      modifies this
      ensures requests == old(requests) + 1
      ensures r.Some? ==> r.value == PageOf(OfferedIn(releases, topology, channelGroup), page)
      ensures lost == old(lost) + if r.Some? then 0 else 1
    {
      requests := requests + 1;
      var ok: bool := *;
      lost := lost + if ok then 0 else 1;
      r := if ok then Some(PageOf(OfferedIn(releases, topology, channelGroup), page)) else None;
    }
  }

  // Sorting

  predicate Parses(parse: Parser, r: Release) {
    parse(r.rawId).Some?
  }

  predicate AllParse(parse: Parser, s: seq<Release>) {
    forall r :: r in s ==> Parses(parse, r)
  }

  /** The comparison the sort is given; false when either side does not parse. */
  predicate Before(parse: Parser, a: Release, b: Release) {
    var (v, w) := (parse(a.rawId), parse(b.rawId));
    v.Some? && w.Some? && Less(w.value, v.value)
  }

  ghost predicate Descending(parse: Parser, s: seq<Release>) {
    forall i, j :: 0 <= i < j < |s| ==> !Before(parse, s[j], s[i])
  }

  lemma BeforeIsAWeakOrder(parse: Parser, a: Release, b: Release, c: Release)
    requires Parses(parse, a) && Parses(parse, b) && Parses(parse, c)
    ensures !(Before(parse, a, b) && Before(parse, b, a))
    ensures !Before(parse, b, a) && !Before(parse, c, b) ==> !Before(parse, c, a)
  {
    var (u, v, w) := (parse(a.rawId).value, parse(b.rawId).value, parse(c.rawId).value);
    PrecedenceIsTotalPreorder(u, v, w);
    PrecedenceIsTotalPreorder(w, v, u);
    PrecedenceIsTotalPreorder(u, w, v);
  }

  /** A release put behind those it does not come before keeps a list sorted. */
  lemma InsertedInOrder(parse: Parser, sorted: seq<Release>, r: Release, i: nat)
    requires AllParse(parse, sorted) && Parses(parse, r) && Descending(parse, sorted) && i <= |sorted|
    requires i > 0 ==> !Before(parse, r, sorted[i - 1])
    requires forall k :: i <= k < |sorted| ==> Before(parse, r, sorted[k])
    ensures Descending(parse, sorted[..i] + [r] + sorted[i..])
  {
    forall k | 0 <= k < |sorted|
      ensures if k < i then !Before(parse, r, sorted[k]) else !Before(parse, sorted[k], r)
    {
      if k < i {
        BeforeIsAWeakOrder(parse, sorted[k], sorted[i - 1], r);
      } else {
        BeforeIsAWeakOrder(parse, r, sorted[k], r);
      }
    }
    var s := sorted[..i] + [r] + sorted[i..];
    forall j, k | 0 <= j < k < |s| ensures !Before(parse, s[k], s[j]) {
      assert s[j] == (if j < i then sorted[j] else if j == i then r else sorted[j - 1]);
      assert s[k] == (if k < i then sorted[k] else if k == i then r else sorted[k - 1]);
    }
  }

  method Insert(parse: Parser, sorted: seq<Release>, r: Release) returns (s: seq<Release>)
    ensures multiset(s) == multiset(sorted) + multiset{r}
    ensures AllParse(parse, sorted) && Parses(parse, r) && Descending(parse, sorted) ==> Descending(parse, s)
  {
    var i := |sorted|;
    while i > 0 && Before(parse, r, sorted[i - 1])
      invariant 0 <= i <= |sorted|
      invariant forall k :: i <= k < |sorted| ==> Before(parse, r, sorted[k])
    {
      i := i - 1;
    }
    s := sorted[..i] + [r] + sorted[i..];
    assert sorted == sorted[..i] + sorted[i..];
    if AllParse(parse, sorted) && Parses(parse, r) && Descending(parse, sorted) {
      InsertedInOrder(parse, sorted, r, i);
    }
  }

  lemma SameMembers(s: seq<Release>, t: seq<Release>)
    requires multiset(s) == multiset(t)
    ensures forall r :: r in s <==> r in t
    ensures |s| == |t|
  {
    assert forall r :: r in s <==> r in multiset(s);
    assert forall r :: r in t <==> r in multiset(t);
    assert |multiset(s)| == |s| && |multiset(t)| == |t|;
  }

  /** Stands for the library's sort: a permutation always, and sorted when the comparison is an order. */
  method SortSlice(parse: Parser, versions: seq<Release>) returns (s: seq<Release>)
    ensures Sorted(parse, versions, s)
  {
    s := [];
    for i := 0 to |versions|
      invariant Sorted(parse, versions[..i], s)
    {
      assert versions[..i + 1] == versions[..i] + [versions[i]];
      SameMembers(s, versions[..i]);
      s := Insert(parse, s, versions[i]);
    }
    assert versions[..|versions|] == versions;
  }

  ghost predicate Sorted(parse: Parser, versions: seq<Release>, s: seq<Release>) {
    && multiset(s) == multiset(versions)
    && (AllParse(parse, versions) ==> Descending(parse, s))
  }

  // Reading and choosing

  /** Reads until a short page, one request per full page and one more for the rest. */
  method ReadAllPages(server: VersionServer, topology: Topology, channelGroup: string) returns (r: Option<seq<Release>>)
    modifies server
    ensures r.Some? ==>
              && r.value == OfferedIn(server.releases, topology, channelGroup)
              && server.requests == old(server.requests) + |r.value| / PAGE_SIZE + 1
    ensures server.lost == old(server.lost) + if r.Some? then 0 else 1
  {
    ghost var offered := OfferedIn(server.releases, topology, channelGroup);
    var versions: seq<Release> := [];
    var page := 1;
    while true
      invariant page >= 1 && (page - 1) * PAGE_SIZE <= |offered|
      invariant versions == offered[..(page - 1) * PAGE_SIZE]
      invariant server.requests == old(server.requests) + page - 1 && server.lost == old(server.lost)
      decreases |offered| - page * PAGE_SIZE
    {
      var items := server.List(topology, channelGroup, page);
      PageContinues(offered, page);
      if items.None? {
        return None;
      }
      versions := versions + items.value;
      if |items.value| < PAGE_SIZE {
        return Some(versions);
      }
      page := page + 1;
    }
  }

  method GetVersions(server: VersionServer, parse: Parser, topology: Topology, channelGroup: string)
    returns (r: Option<seq<Release>>)
    modifies server
    ensures r.Some? ==> Sorted(parse, OfferedIn(server.releases, topology, channelGroup), r.value)
    ensures r.Some? ==>
              var offered := OfferedIn(server.releases, topology, channelGroup);
              server.requests == old(server.requests) + |offered| / PAGE_SIZE + 1
    ensures server.lost == old(server.lost) + if r.Some? then 0 else 1
  {
    r := ReadAllPages(server, topology, channelGroup);
    if r.Some? {
      var sorted := SortSlice(parse, r.value);
      r := Some(sorted);
    }
  }

  function RawIds(releases: seq<Release>): seq<string> {
    seq(|releases|, i requires 0 <= i < |releases| => releases[i].rawId)
  }

  predicate IsOffered(releases: seq<Release>, topology: Topology, channelGroup: string, rawId: string) {
    exists r :: r in releases && Offered(r, topology, channelGroup) && r.rawId == rawId
  }

  /** Offered means enabled, enabled for ROSA, in the channel group, and, for a hosted cluster, enabled for hosted
      control planes. */
  lemma OfferedIff(releases: seq<Release>, topology: Topology, channelGroup: string, rawId: string)
    ensures IsOffered(releases, topology, channelGroup, rawId) <==>
              exists r :: r in releases && r.rawId == rawId && r.enabled && r.rosaEnabled &&
                r.channelGroup == channelGroup && (topology == Hcp ==> r.hostedEnabled)
    ensures IsOffered(releases, topology, channelGroup, rawId) <==>
              exists r :: r in OfferedIn(releases, topology, channelGroup) && r.rawId == rawId
  {
    OfferedInSelects(releases, topology, channelGroup);
  }

  /** The versions behind the list are kept as a ghost result. */
  method GetVersionList(server: VersionServer, parse: Parser, topology: Topology, channelGroup: string)
    returns (r: Result<seq<string>, Error>, ghost versions: seq<Release>)
    modifies server
    ensures r.Success? ==>
              && r.value == RawIds(versions) && versions != []
              && Sorted(parse, OfferedIn(server.releases, topology, channelGroup), versions)
    ensures r.Failure? ==>
              r.error.ApiFailed? ||
              (r.error.NoVersions? && OfferedIn(server.releases, topology, channelGroup) == [])
    ensures server.lost == old(server.lost) + if r == Failure(ApiFailed) then 1 else 0
  {
    var vs := GetVersions(server, parse, topology, channelGroup);
    if vs.None? {
      return Failure(ApiFailed), [];
    }
    var versionList: seq<string> := [];
    for i := 0 to |vs.value|
      invariant versionList == RawIds(vs.value[..i])
    {
      versionList := versionList + [vs.value[i].rawId];
    }
    assert vs.value[..|vs.value|] == vs.value;
    if |versionList| == 0 {
      SameMembers(vs.value, OfferedIn(server.releases, topology, channelGroup));
      return Failure(NoVersions), [];
    }
    return Success(versionList), vs.value;
  }

  /** When every offered version parses, none of them has a higher precedence. */
  ghost predicate Greatest(parse: Parser, releases: seq<Release>, topology: Topology, channelGroup: string,
                           rawId: string)
  {
    (forall r :: r in releases && Offered(r, topology, channelGroup) ==> Parses(parse, r)) ==>
      && parse(rawId).Some?
      && forall r :: r in releases && Offered(r, topology, channelGroup) ==>
          !Less(parse(rawId).value, parse(r.rawId).value)
  }

  lemma FirstIsGreatest(parse: Parser, releases: seq<Release>, topology: Topology, channelGroup: string,
                        versions: seq<Release>)
    requires versions != [] && Sorted(parse, OfferedIn(releases, topology, channelGroup), versions)
    ensures Greatest(parse, releases, topology, channelGroup, versions[0].rawId)
  {
    OfferedInSelects(releases, topology, channelGroup);
    SameMembers(versions, OfferedIn(releases, topology, channelGroup));
    assert versions[0] in versions;
    if AllParse(parse, versions) {
      forall r | r in versions && Parses(parse, r) ensures !Less(parse(versions[0].rawId).value, parse(r.rawId).value) {
        var j :| 0 <= j < |versions| && versions[j] == r;
        if j == 0 {
          PrecedenceIsTotalPreorder(parse(r.rawId).value, parse(r.rawId).value, parse(r.rawId).value);
        } else {
          assert !Before(parse, versions[j], versions[0]);
        }
      }
    }
  }

  lemma OfferedIffListed(parse: Parser, releases: seq<Release>, topology: Topology, channelGroup: string,
                         versions: seq<Release>, rawId: string)
    requires Sorted(parse, OfferedIn(releases, topology, channelGroup), versions)
    ensures IsOffered(releases, topology, channelGroup, rawId) <==> rawId in RawIds(versions)
  {
    OfferedInSelects(releases, topology, channelGroup);
    SameMembers(versions, OfferedIn(releases, topology, channelGroup));
    if rawId in RawIds(versions) {
      var i :| 0 <= i < |versions| && RawIds(versions)[i] == rawId;
      assert versions[i] in versions;
    }
    if r :| r in releases && Offered(r, topology, channelGroup) && r.rawId == rawId {
      var i :| 0 <= i < |versions| && versions[i] == r;
      assert RawIds(versions)[i] == rawId;
    }
  }

  lemma NothingOffered(releases: seq<Release>, topology: Topology, channelGroup: string)
    requires OfferedIn(releases, topology, channelGroup) == []
    ensures forall rawId :: !IsOffered(releases, topology, channelGroup, rawId)
  {
    OfferedInSelects(releases, topology, channelGroup);
  }

  /** A requested version comes back unchanged, and is refused only if it is not offered; without a request
      the answer is an offered version with no offered version above it. */
  method GetAndValidateVersionInChannelGroup(server: VersionServer, parse: Parser, topology: Topology,
                                             channelGroup: string, requested: string)
    returns (r: Result<string, Error>)
    modifies server
    ensures r.Success? ==> IsOffered(server.releases, topology, channelGroup, r.value)
    ensures r.Success? && requested != "" ==> r.value == requested
    ensures r.Success? && requested == "" ==> Greatest(parse, server.releases, topology, channelGroup, r.value)
    ensures r.Failure? && r.error.NotSupported? ==>
              requested != "" && !IsOffered(server.releases, topology, channelGroup, requested)
    ensures r.Failure? && r.error.NoVersions? ==> forall v :: !IsOffered(server.releases, topology, channelGroup, v)
    ensures server.lost == old(server.lost) + if r == Failure(ApiFailed) then 1 else 0
  {
    var versionList: Result<seq<string>, Error>;
    ghost var versions: seq<Release>;
    versionList, versions := GetVersionList(server, parse, topology, channelGroup);
    if versionList.Failure? {
      if versionList.error.NoVersions? {
        NothingOffered(server.releases, topology, channelGroup);
      }
      return Failure(versionList.error);
    }
    var version := versionList.value[0];
    FirstIsGreatest(parse, server.releases, topology, channelGroup, versions);
    if requested != "" {
      version := requested;
    }
    OfferedIffListed(parse, server.releases, topology, channelGroup, versions, version);
    for i := 0 to |versionList.value|
      invariant version !in versionList.value[..i]
    {
      if versionList.value[i] == version {
        return Success(version);
      }
    }
    assert versionList.value[..|versionList.value|] == versionList.value;
    return Failure(NotSupported);
  }
}
