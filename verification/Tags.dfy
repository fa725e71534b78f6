/** AWS tags of a machine pool. The server answers with the pool's tags and its cluster's together; the state
    keeps the pool's own. */
module Tags {
  import opened Wrappers

  type TagMap = map<string, string>

  /** The tags of the answer that are not the cluster's, unless the pool configures them too. */
  function OwnTags(configured: Attribute<TagMap>, cluster: Option<TagMap>, awsTags: TagMap): TagMap {
    if cluster.None? then awsTags else awsTags - (cluster.value.Keys - configured.GetOr(map[]).Keys)
  }

  /** The cluster's keys outside `left` are gone, unless they are configured. */
  ghost predicate Filtered(awsTags: TagMap, cluster: set<string>, configured: set<string>, left: set<string>,
                           filtered: TagMap)
  {
    && (forall k :: k in filtered <==> k in awsTags && (k !in cluster || k in left || k in configured))
    && forall k :: k in filtered ==> filtered[k] == awsTags[k]
  }

  lemma OneMoreFiltered(awsTags: TagMap, cluster: set<string>, configured: set<string>, left: set<string>,
                        filtered: TagMap, k: string)
    requires Filtered(awsTags, cluster, configured, left, filtered) && left <= cluster && k in left
    ensures Filtered(awsTags, cluster, configured, left - {k}, if k in configured then filtered else filtered - {k})
  {
  }

  lemma AllFiltered(awsTags: TagMap, cluster: set<string>, configured: set<string>, filtered: TagMap)
    requires Filtered(awsTags, cluster, configured, {}, filtered)
    ensures filtered == awsTags - (cluster - configured)
  {
  }

  method FilterClusterTagsNotPresentInNpInput(configured: Attribute<TagMap>, cluster: Option<TagMap>, awsTags: TagMap)
    returns (filteredTags: TagMap)
    ensures filteredTags == OwnTags(configured, cluster, awsTags)
  {
    if awsTags == map[] {
      return awsTags;
    }
    if cluster.None? || cluster.value == map[] {
      return awsTags;
    }
    filteredTags := awsTags;
    var current := configured.GetOr(map[]);
    var left := cluster.value.Keys;
    while left != {}
      invariant left <= cluster.value.Keys
      invariant Filtered(awsTags, cluster.value.Keys, current.Keys, left, filteredTags)
      decreases |left|
    {
      var k :| k in left;
      OneMoreFiltered(awsTags, cluster.value.Keys, current.Keys, left, filteredTags, k);
      if k !in current {
        filteredTags := filteredTags - {k};
      }
      left := left - {k};
    }
    AllFiltered(awsTags, cluster.value.Keys, current.Keys, filteredTags);
  }

  /** The tags after a read. An answer without a tag of the pool's own leaves what was there. */
  function AfterRead(tags: Attribute<TagMap>, answer: Answer): Attribute<TagMap> {
    var had := if tags.Known? then tags else Null;
    if answer.pool.None? || OwnTags(had, answer.cluster, answer.pool.value) == map[] then had
    else Known(OwnTags(had, answer.cluster, answer.pool.value))
  }

  /** What one read gets: the tags of the pool and of its cluster, where the answers have any. */
  datatype Answer = Answer(pool: Option<TagMap>, cluster: Option<TagMap>)

  class MachinePoolState {
    var awsTags: Attribute<TagMap>

    method Populate(answer: Answer)
      modifies this
      ensures awsTags == AfterRead(old(awsTags), answer)
    {
      if !awsTags.HasValue() {
        awsTags := Null;
      }
      if answer.pool.Some? {
        var filtered := FilterClusterTagsNotPresentInNpInput(awsTags, answer.cluster, answer.pool.value);
        if |filtered| > 0 {
          awsTags := Known(filtered);
        }
      }
    }
  }

  function AfterReads(tags: Attribute<TagMap>, answers: seq<Answer>): Attribute<TagMap>
    decreases |answers|
  {
    if answers == [] then tags else AfterReads(AfterRead(tags, answers[0]), answers[1..])
  }

  /** The pool carries its cluster's tags with the user's on top. */
  ghost predicate CarriesTagsOf(answer: Answer, user: TagMap) {
    && answer.pool.Some?
    && answer.pool.value == (if answer.cluster.Some? then answer.cluster.value else map[]) + user
  }

  /** Only the user's tags come out, however the cluster's tags overlap with them. */
  lemma OwnTagsAreTheUsers(user: TagMap, answer: Answer)
    requires CarriesTagsOf(answer, user)
    ensures OwnTags(Known(user), answer.cluster, answer.pool.value) == user
  {
  }

  /** The user's tags stay through any run of reads, even when the cluster's tags change between them. */
  lemma {:induction false} UserTagsStay(user: TagMap, answers: seq<Answer>)
    requires forall i :: 0 <= i < |answers| ==> CarriesTagsOf(answers[i], user)
    ensures AfterReads(Known(user), answers) == Known(user)
  {
    if answers != [] {
      OwnTagsAreTheUsers(user, answers[0]);
      UserTagsStay(user, answers[1..]);
    }
  }

  /** Whatever the state held, a second read of the same answer changes nothing. */
  lemma ReadingAgainChangesNothing(tags: Attribute<TagMap>, answer: Answer)
    ensures AfterRead(AfterRead(tags, answer), answer) == AfterRead(tags, answer)
  {
    var once := AfterRead(tags, answer);
    var had := if tags.Known? then tags else Null;
    if once != had && answer.cluster.Some? {
      assert OwnTags(once, answer.cluster, answer.pool.value) == OwnTags(had, answer.cluster, answer.pool.value);
    }
  }

  predicate IsOwnTag(tags: Attribute<TagMap>, answer: Answer, k: string)
    requires answer.pool.Some?
  {
    k in answer.pool.value && (answer.cluster.None? || k !in answer.cluster.value || k in tags.GetOr(map[]))
  }

  /** A read leaves in the state what the server has of the pool's own tags, except that losing all of them
      on the server goes unnoticed. */
  lemma ReadShowsTheServerIff(tags: Attribute<TagMap>, answer: Answer)
    requires answer.pool.Some?
    ensures AfterRead(tags, answer).GetOr(map[]) == OwnTags(tags, answer.cluster, answer.pool.value)
       <==> tags.GetOr(map[]) == map[] || exists k :: IsOwnTag(tags, answer, k)
  {
    var own := OwnTags(tags, answer.cluster, answer.pool.value);
    assert OwnTags(if tags.Known? then tags else Null, answer.cluster, answer.pool.value) == own;
    if own != map[] {
      var k :| k in own;
      assert IsOwnTag(tags, answer, k);
    } else {
      forall k ensures !IsOwnTag(tags, answer, k) {
        assert k !in own;
      }
    }
  }
}
