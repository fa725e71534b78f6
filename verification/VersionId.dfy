/** Version identifiers: how the provider builds one from a version and a channel group, and how it
    gets the version back when it reads a cluster. */
module VersionId {
  const VERSION_PREFIX := "openshift-v"

  const DEFAULT_CHANNEL_GROUP := "stable"

  function TrimPrefix(s: string, prefix: string): string {
    if prefix <= s then s[|prefix|..] else s
  }

  predicate EndsWith(s: string, suffix: string) {
    |suffix| <= |s| && s[|s| - |suffix|..] == suffix
  }

  function TrimSuffix(s: string, suffix: string): string {
    if EndsWith(s, suffix) then s[..|s| - |suffix|] else s
  }

  /** A non-default channel group is appended to the version. */
  function CreateVersionId(version: string, channelGroup: string): string {
    VERSION_PREFIX + version + if channelGroup == DEFAULT_CHANNEL_GROUP then "" else "-" + channelGroup
  }

  /** The current version a cluster read stores, from the server's id and its channel group. */
  function ClusterVersion(id: string, channelGroup: string): string {
    TrimPrefix(TrimSuffix(id, "-" + channelGroup), VERSION_PREFIX)
  }

  /** The current version a node pool read stores. */
  function NodePoolVersion(id: string): string {
    TrimPrefix(id, VERSION_PREFIX)
  }

  lemma SuffixOfConcatenation(s: string, t: string)
    ensures EndsWith(s + t, t) && TrimSuffix(s + t, t) == s
    ensures TrimPrefix(s + t, s) == t
  {
  }

  /** Only the version itself can supply the suffix "-stable": it cannot straddle the prefix. */
  lemma DefaultSuffixIsInTheVersion(version: string)
    ensures EndsWith(VERSION_PREFIX + version, "-" + DEFAULT_CHANNEL_GROUP)
       <==> EndsWith(version, "-" + DEFAULT_CHANNEL_GROUP)
  {
    var (id, suffix) := (VERSION_PREFIX + version, "-" + DEFAULT_CHANNEL_GROUP);
    if |suffix| <= |version| {
      assert id[|id| - |suffix|..] == version[|version| - |suffix|..];
    } else {
      assert |id| >= 11 > 7 == |suffix| && suffix[0] == '-' && suffix[1] == 's';
      var at := |id| - |suffix|;
      assert VERSION_PREFIX == "openshift-v" && at < 11;
      assert id[at..][0] == VERSION_PREFIX[at];
      assert at == 9 ==> id[at..][1] == 'v';
    }
  }

  /** A read gives back the version exactly unless the default channel group is in use and the version
      itself ends in its name, and then rebuilding the id does not give the server's id again. */
  lemma VersionIdRoundTrip(version: string, channelGroup: string)
    ensures var id := CreateVersionId(version, channelGroup);
            var stored := ClusterVersion(id, channelGroup);
            && (stored == version <==>
                channelGroup != DEFAULT_CHANNEL_GROUP || !EndsWith(version, "-" + DEFAULT_CHANNEL_GROUP))
            && (CreateVersionId(stored, channelGroup) == id <==> stored == version)
  {
    var id := CreateVersionId(version, channelGroup);
    var stored := ClusterVersion(id, channelGroup);
    SuffixOfConcatenation(VERSION_PREFIX, version);
    SuffixOfConcatenation(VERSION_PREFIX, stored);
    if channelGroup == DEFAULT_CHANNEL_GROUP {
      DefaultSuffixIsInTheVersion(version);
      assert id == VERSION_PREFIX + version && CreateVersionId(stored, channelGroup) == VERSION_PREFIX + stored;
      if EndsWith(version, "-" + DEFAULT_CHANNEL_GROUP) {
        var kept := version[..|version| - 7];
        assert TrimSuffix(id, "-" + channelGroup) == VERSION_PREFIX + kept;
        SuffixOfConcatenation(VERSION_PREFIX, kept);
      }
    } else {
      SuffixOfConcatenation(VERSION_PREFIX + version, "-" + channelGroup);
      assert CreateVersionId(stored, channelGroup) == VERSION_PREFIX + stored + ("-" + channelGroup);
    }
  }

  /** A node pool read keeps the channel group, so it gives the version back only for the default one. */
  lemma NodePoolKeepsTheChannelGroup(version: string, channelGroup: string)
    ensures NodePoolVersion(CreateVersionId(version, channelGroup)) == version <==>
              channelGroup == DEFAULT_CHANNEL_GROUP
  {
  }
}
