/** Parsed versions and their precedence, as section 11 of Semantic Versioning 2.0.0 defines it.
    Build metadata takes no part in the order, so precedence is a total preorder. */
module Semver {
  datatype Identifier = Numeric(n: nat) | Alphanumeric(s: string)

  datatype Version = Version(major: nat, minor: nat, patch: nat, pre: seq<Identifier>, meta: string)

  // Every comparison is negative, zero or positive.

  function Then(first: int, second: int): int {
    if first != 0 then first else second
  }

  function CompareText(s: string, t: string): int {
    if s == "" || t == "" then |s| - |t|
    else Then(s[0] as int - t[0] as int, CompareText(s[1..], t[1..]))
  }

  function CompareIdentifier(a: Identifier, b: Identifier): int {
    match (a, b)
    case (Numeric(m), Numeric(n)) => m - n
    case (Numeric(_), Alphanumeric(_)) => -1
    case (Alphanumeric(_), Numeric(_)) => 1
    case (Alphanumeric(s), Alphanumeric(t)) => CompareText(s, t)
  }

  function CompareIdentifiers(p: seq<Identifier>, q: seq<Identifier>): int {
    if p == [] || q == [] then |p| - |q|
    else Then(CompareIdentifier(p[0], q[0]), CompareIdentifiers(p[1..], q[1..]))
  }

  // A release is above all of its pre-releases.
  function ComparePreReleases(p: seq<Identifier>, q: seq<Identifier>): int {
    if p == [] || q == [] then |q| - |p| else CompareIdentifiers(p, q)
  }

  function Compare(a: Version, b: Version): int {
    Then(a.major - b.major, Then(a.minor - b.minor, Then(a.patch - b.patch, ComparePreReleases(a.pre, b.pre))))
  }

  predicate Equal(a: Version, b: Version) {
    Compare(a, b) == 0
  }

  predicate Less(a: Version, b: Version) {
    Compare(a, b) < 0
  }

  // Three results of one comparison on a pair, the reversed pair and a chain fit together.
  predicate Coherent(ab: int, ba: int, bc: int, ac: int) {
    && (ab < 0 <==> ba > 0) && (ab == 0 <==> ba == 0)
    && (ab <= 0 && bc <= 0 ==> ac <= 0 && (ac == 0 ==> ab == 0 && bc == 0))
  }

  lemma {:induction false} TextOrder(a: string, b: string, c: string)
    ensures Coherent(CompareText(a, b), CompareText(b, a), CompareText(b, c), CompareText(a, c))
    decreases |a| + |b| + |c|
  {
    if a != "" && b != "" {
      TextOrder(a[1..], b[1..], if c == "" then c else c[1..]);
    }
  }

  lemma {:induction false} IdentifiersOrder(a: seq<Identifier>, b: seq<Identifier>, c: seq<Identifier>)
    ensures Coherent(CompareIdentifiers(a, b), CompareIdentifiers(b, a), CompareIdentifiers(b, c),
              CompareIdentifiers(a, c))
    decreases |a| + |b| + |c|
  {
    if a != [] && b != [] {
      IdentifierOrder(a[0], b[0], if c == [] then a[0] else c[0]);
      IdentifiersOrder(a[1..], b[1..], if c == [] then c else c[1..]);
    }
  }

  lemma IdentifierOrder(a: Identifier, b: Identifier, c: Identifier)
    ensures Coherent(CompareIdentifier(a, b), CompareIdentifier(b, a), CompareIdentifier(b, c), CompareIdentifier(a, c))
  {
    if a.Alphanumeric? && b.Alphanumeric? {
      TextOrder(a.s, b.s, if c.Alphanumeric? then c.s else "");
    }
  }

  /** Precedence is a total preorder: reversing a comparison flips it, and it is transitive,
      strictly so when either link is strict. */
  lemma PrecedenceIsTotalPreorder(a: Version, b: Version, c: Version)
    ensures Equal(a, a)
    ensures Coherent(Compare(a, b), Compare(b, a), Compare(b, c), Compare(a, c))
  {
    IdentifiersOrder(a.pre, a.pre, a.pre);
    IdentifiersOrder(a.pre, b.pre, c.pre);
  }

  lemma GreaterIsLessReversed(a: Version, b: Version)
    ensures Compare(a, b) > 0 <==> Less(b, a)
  {
    PrecedenceIsTotalPreorder(a, b, a);
  }

  /** Versions of equal precedence stand in the same place in the order. */
  lemma EqualVersionsCompareAlike(a: Version, b: Version, c: Version)
    requires Equal(a, b)
    ensures Less(a, c) <==> Less(b, c)
    ensures Less(c, a) <==> Less(c, b)
    ensures Equal(a, c) <==> Equal(b, c)
    ensures a.major == b.major && a.minor == b.minor
  {
    PrecedenceIsTotalPreorder(a, b, c);
    PrecedenceIsTotalPreorder(b, a, c);
    PrecedenceIsTotalPreorder(c, a, b);
    PrecedenceIsTotalPreorder(c, b, a);
  }

  // The order in the words of section 11

  /** ASCII order: the first difference decides, and the beginning of a text is below the whole. */
  ghost predicate TextIsBelow(s: string, t: string) {
    || (s <= t && |s| < |t|)
    || exists k :: 0 <= k < |s| && k < |t| && s[..k] == t[..k] && s[k] < t[k]
  }

  /** Numbers are compared as numbers, and are below text. */
  ghost predicate IdentifierIsBelow(a: Identifier, b: Identifier) {
    if a.Numeric? then b.Alphanumeric? || a.n < b.n else b.Alphanumeric? && TextIsBelow(a.s, b.s)
  }

  /** The first difference decides, and fewer identifiers are below more when those there are agree. */
  ghost predicate IdentifiersAreBelow(p: seq<Identifier>, q: seq<Identifier>) {
    || (p <= q && |p| < |q|)
    || exists k :: 0 <= k < |p| && k < |q| && p[..k] == q[..k] && IdentifierIsBelow(p[k], q[k])
  }

  /** Major, minor and patch are compared in this order. */
  predicate NumbersAreBelow(a: Version, b: Version) {
    || a.major < b.major
    || (a.major == b.major && a.minor < b.minor)
    || (a.major == b.major && a.minor == b.minor && a.patch < b.patch)
  }

  predicate SameNumbers(a: Version, b: Version) {
    a.major == b.major && a.minor == b.minor && a.patch == b.patch
  }

  /** With the same numbers a pre-release is below the release, and two pre-releases go by their identifiers. */
  ghost predicate IsBelow(a: Version, b: Version) {
    || NumbersAreBelow(a, b)
    || (SameNumbers(a, b) && a.pre != [] && (b.pre == [] || IdentifiersAreBelow(a.pre, b.pre)))
  }

  lemma {:induction false} TextIsLessIff(s: string, t: string)
    ensures CompareText(s, t) < 0 <==> TextIsBelow(s, t)
    ensures CompareText(s, t) == 0 <==> s == t
  {
    if s != "" && t != "" {
      TextIsLessIff(s[1..], t[1..]);
      if s[0] == t[0] {
        assert s == [s[0]] + s[1..] && t == [t[0]] + t[1..];
        if k :| 0 <= k < |s[1..]| && k < |t[1..]| && s[1..][..k] == t[1..][..k] && s[1..][k] < t[1..][k] {
          assert s[..k + 1] == [s[0]] + s[1..][..k] && t[..k + 1] == [t[0]] + t[1..][..k];
        }
        if k :| 0 <= k < |s| && k < |t| && s[..k] == t[..k] && s[k] < t[k] {
          assert s[1..][..k - 1] == s[..k][1..] && t[1..][..k - 1] == t[..k][1..];
        }
      } else {
        assert forall k :: 0 < k < |s| && k < |t| ==> s[..k][0] != t[..k][0];
        assert s[..0] == t[..0];
      }
    }
  }

  lemma IdentifierIsLessIff(a: Identifier, b: Identifier)
    ensures CompareIdentifier(a, b) < 0 <==> IdentifierIsBelow(a, b)
    ensures CompareIdentifier(a, b) == 0 <==> a == b
  {
    if a.Alphanumeric? && b.Alphanumeric? {
      TextIsLessIff(a.s, b.s);
    }
  }

  lemma {:induction false} IdentifiersAreLessIff(p: seq<Identifier>, q: seq<Identifier>)
    ensures CompareIdentifiers(p, q) < 0 <==> IdentifiersAreBelow(p, q)
    ensures CompareIdentifiers(p, q) == 0 <==> p == q
  {
    if p != [] && q != [] {
      IdentifiersAreLessIff(p[1..], q[1..]);
      IdentifierIsLessIff(p[0], q[0]);
      if p[0] == q[0] {
        assert p == [p[0]] + p[1..] && q == [q[0]] + q[1..];
        var (pp, qq) := (p[1..], q[1..]);
        if k :| 0 <= k < |pp| && k < |qq| && pp[..k] == qq[..k] && IdentifierIsBelow(pp[k], qq[k]) {
          assert p[..k + 1] == [p[0]] + p[1..][..k] && q[..k + 1] == [q[0]] + q[1..][..k];
        }
        if k :| 0 <= k < |p| && k < |q| && p[..k] == q[..k] && IdentifierIsBelow(p[k], q[k]) {
          assert p[1..][..k - 1] == p[..k][1..] && q[1..][..k - 1] == q[..k][1..];
        }
      } else {
        assert forall k :: 0 < k < |p| && k < |q| ==> p[..k][0] != q[..k][0];
        assert p[..0] == q[..0];
      }
    }
  }

  /** The comparison is the order of section 11: one version is below another exactly when the section says so,
      and equal to it exactly when they differ in build metadata at most. */
  lemma PrecedenceIffSectionEleven(a: Version, b: Version)
    ensures Less(a, b) <==> IsBelow(a, b)
    ensures Equal(a, b) <==> SameNumbers(a, b) && a.pre == b.pre
  {
    IdentifiersAreLessIff(a.pre, b.pre);
  }
}
