/** Upgrade policies as values: what the provider reads from the server, which policies it wants,
    and which it cancels. The same rules serve the classic cluster, the hosted control plane and
    the node pool, which differ only in the kind of policy they look at. */
module UpgradePolicies {
  import opened Wrappers
  import opened Semver
  import opened VersionId

  const TEN_MINUTES := 600_000_000_000 // in nanoseconds

  datatype PolicyState = Pending | Scheduled | Started | Delayed | Completed | Cancelled | Failed

  datatype UpgradeKind = Osd | OsdCve | ControlPlane | ControlPlaneCve | NodePool

  /** The three copies of the protocol. Only the classic cluster trims the version prefix off the
      planned version before comparing it with the current one. */
  datatype Variant = ClassicCluster | HostedControlPlane | HostedNodePool {
    function Kind(): UpgradeKind {
      match this
      case ClassicCluster => Osd
      case HostedControlPlane => ControlPlane
      case HostedNodePool => NodePool
    }

    function PlannedText(text: string): string {
      if ClassicCluster? then TrimPrefix(text, VERSION_PREFIX) else text
    }
  }

  datatype Policy = Policy(id: nat, kind: UpgradeKind, version: string, nextRun: int, state: PolicyState) {
    predicate InProgress() {
      state.Started? || state.Delayed?
    }

    predicate Waiting() {
      state.Pending? || state.Scheduled?
    }

    predicate Active() {
      InProgress() || Waiting()
    }
  }

  datatype Gate = Gate(id: string, stsOnly: bool)

  /** The version library: it reads a version from text and writes one back. */
  datatype SemverLibrary = SemverLibrary(parse: string -> Option<Version>, render: Version -> string) {
    /** Some text is read as this version. */
    ghost predicate Reads(v: Version) {
      exists text :: parse(text) == Some(v)
    }

    /** A version the library has read can be written so that it is read back with the same precedence. */
    ghost predicate RoundTrips() {
      forall v: Version :: Reads(v) ==> Denotes(render(v), v)
    }

    predicate Denotes(text: string, v: Version) {
      parse(text).Some? && Equal(parse(text).value, v)
    }
  }

  /** A policy that already does what is wanted: under way to the desired version, or due for it
      within ten minutes of `now`. */
  predicate Wanted(lib: SemverLibrary, p: Policy, desired: Version, now: int) {
    && lib.Denotes(p.version, desired)
    && (p.InProgress() || (p.Waiting() && p.nextRun < now + TEN_MINUTES))
  }

  /** A policy the provider cancels: not yet under way, and not wanted. */
  predicate Cancellable(lib: SemverLibrary, p: Policy, desired: Version, now: int) {
    p.Waiting() && !Wanted(lib, p, desired, now)
  }

  /** The policies of one kind, in the order of the list. */
  function OfKind(ps: seq<Policy>, kind: UpgradeKind): seq<Policy> {
    if ps == [] then []
    else OfKind(ps[..|ps| - 1], kind) + if ps[|ps| - 1].kind == kind then [ps[|ps| - 1]] else []
  }

  lemma OfKindOneMore(ps: seq<Policy>, p: Policy, kind: UpgradeKind)
    ensures OfKind(ps + [p], kind) == OfKind(ps, kind) + if p.kind == kind then [p] else []
  {
    assert (ps + [p])[..|ps|] == ps;
  }

  lemma {:induction false} OfKindSelects(ps: seq<Policy>, kind: UpgradeKind, p: Policy)
    ensures p in OfKind(ps, kind) <==> p in ps && p.kind == kind
  {
    if ps != [] {
      OfKindSelects(ps[..|ps| - 1], kind, p);
      assert ps == ps[..|ps| - 1] + [ps[|ps| - 1]];
    }
  }

  /** The order of the list is kept. */
  lemma {:induction false} OfKindOfConcatenation(ps: seq<Policy>, qs: seq<Policy>, kind: UpgradeKind)
    ensures OfKind(ps + qs, kind) == OfKind(ps, kind) + OfKind(qs, kind)
  {
    if qs == [] {
      assert ps + qs == ps;
    } else {
      var n := |qs| - 1;
      OfKindOfConcatenation(ps, qs[..n], kind);
      assert (ps + qs)[..|ps| + n] == ps + qs[..n] && (ps + qs)[|ps| + n] == qs[n];
    }
  }

  ghost predicate DistinctIds(ps: seq<Policy>) {
    forall i, j :: 0 <= i < j < |ps| ==> ps[i].id != ps[j].id
  }

  lemma {:induction false} OfKindKeepsDistinctIds(ps: seq<Policy>, kind: UpgradeKind)
    requires DistinctIds(ps)
    ensures DistinctIds(OfKind(ps, kind))
  {
    if ps != [] {
      var front, last := ps[..|ps| - 1], ps[|ps| - 1];
      OfKindKeepsDistinctIds(front, kind);
      forall i | 0 <= i < |OfKind(front, kind)| ensures OfKind(front, kind)[i].id != last.id {
        OfKindSelects(front, kind, OfKind(front, kind)[i]);
      }
    }
  }

  /** The ids the provider cancels when it walks a list of policies. */
  function CancelIds(lib: SemverLibrary, ups: seq<Policy>, desired: Version, now: int): set<nat> {
    set p | p in ups && Cancellable(lib, p, desired, now) :: p.id
  }

  // Gate acknowledgements

  /** The server's answer to a dry run: the policy would be accepted, nothing came back at all, or it
      was refused, with the missing gates when the refusal can be read as a gate list. */
  datatype DryRunReply = Accepted | NoResponse | Refused(gates: Option<seq<Gate>>)

  /** The gates the provider takes to be missing, or None when it reports an error instead. A reply
      that never arrived counts as "none missing". */
  function GatesIn(reply: DryRunReply): Option<seq<Gate>> {
    match reply
    case Accepted => Some([])
    case NoResponse => Some([])
    case Refused(None) => None
    case Refused(Some(gates)) => if gates != [] && gates[0].id == "" then None else Some(gates)
  }

  /** A refusal that cannot be read as a list of gates. */
  predicate Unreadable(reply: DryRunReply) {
    reply.Refused? && (reply.gates.None? || (reply.gates.value != [] && reply.gates.value[0].id == ""))
  }

  predicate UserAckRequired(gates: seq<Gate>) {
    exists g :: g in gates && !g.stsOnly
  }

  function Digits(n: nat): string {
    (if n < 10 then "" else Digits(n / 10)) + [('0' as int + n % 10) as char]
  }

  /** The minor version the user has to write down to acknowledge gates. */
  function MinorText(v: Version): string {
    Digits(v.major) + "." + Digits(v.minor)
  }

  /** The value of a decimal text. */
  function ValueOf(text: string): int {
    if text == "" then 0 else 10 * ValueOf(text[..|text| - 1]) + (text[|text| - 1] as int - '0' as int)
  }

  /** A number as one writes it: digits without leading zeros. */
  predicate Writes(text: string, n: nat) {
    && text != "" && ValueOf(text) == n
    && (forall i :: 0 <= i < |text| ==> '0' <= text[i] <= '9')
    && (text[0] == '0' ==> |text| == 1)
  }

  lemma {:induction false} DigitsWrite(n: nat)
    ensures Writes(Digits(n), n)
    ensures n > 0 ==> Digits(n)[0] != '0'
  {
    if n >= 10 {
      DigitsWrite(n / 10);
      assert Digits(n)[..|Digits(n)| - 1] == Digits(n / 10);
    }
  }

  lemma PointSplits(a: string, b: string)
    requires '.' !in a && '.' !in b
    ensures var text := a + "." + b;
            && text[..|a|] == a && text[|a| + 1..] == b
            && forall i :: 0 <= i < |text| && text[i] == '.' ==> i == |a|
  {
  }

  /** What has to be written down is the major and the minor version with a point in between. */
  lemma MinorTextWrites(v: Version) returns (major: string, minor: string)
    ensures MinorText(v) == major + "." + minor && Writes(major, v.major) && Writes(minor, v.minor)
  {
    DigitsWrite(v.major);
    DigitsWrite(v.minor);
    return Digits(v.major), Digits(v.minor);
  }

  /** It is the same for two versions only if they have the same major and minor version. */
  lemma MinorTextIsSameIff(v: Version, w: Version)
    ensures MinorText(v) == MinorText(w) <==> v.major == w.major && v.minor == w.minor
  {
    forall n ensures '.' !in Digits(n) && ValueOf(Digits(n)) == n {
      DigitsWrite(n);
    }
    PointSplits(Digits(v.major), Digits(v.minor));
    PointSplits(Digits(w.major), Digits(w.minor));
    if MinorText(v) == MinorText(w) {
      assert MinorText(w)[|Digits(v.major)|] == '.';
    }
  }
}
