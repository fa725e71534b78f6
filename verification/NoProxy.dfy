/** Removing the domains that a zero-egress cluster adds by itself from a no_proxy list. */
module NoProxy {
  type Format = string -> bool

  /** The pieces of a string between the separators, found from the left; without a separator, its characters. */
  function Split(s: string, separator: string): seq<string>
    ensures separator != "" ==> |Split(s, separator)| >= 1
    decreases |s|
  {
    if separator == "" then seq(|s|, i requires 0 <= i < |s| => [s[i]])
    else if separator <= s then [""] + Split(s[|separator|..], separator)
    else if s == "" then [""]
    else
      var rest := Split(s[1..], separator);
      [[s[0]] + rest[0]] + rest[1..]
  }

  function Join(pieces: seq<string>, separator: string): string {
    if pieces == [] then ""
    else if |pieces| == 1 then pieces[0]
    else pieces[0] + separator + Join(pieces[1..], separator)
  }

  predicate Matches(formats: seq<Format>, s: string) {
    exists i :: 0 <= i < |formats| && formats[i](s)
  }

  /** The pieces that match no format, in order. */
  function Survivors(formats: seq<Format>, pieces: seq<string>): seq<string> {
    if pieces == [] then []
    else
      var last := pieces[|pieces| - 1];
      Survivors(formats, pieces[..|pieces| - 1]) + if Matches(formats, last) then [] else [last]
  }

  function Clean(formats: seq<Format>, input: string, separator: string): string {
    Join(Survivors(formats, Split(input, separator)), ",")
  }

  method RemoveNoProxyZeroEgressDefaultDomains(formats: seq<Format>, input: string, separator: string)
    returns (r: string)
    ensures r == Clean(formats, input, separator)
  {
    var splits := Split(input, separator);
    var result := [];
    for i := 0 to |splits|
      invariant result == Survivors(formats, splits[..i])
    {
      var matched := false;
      for j := 0 to |formats|
        invariant !matched && forall k :: 0 <= k < j ==> !formats[k](splits[i])
      {
        matched := formats[j](splits[i]);
        if matched {
          break;
        }
      }
      assert splits[..i + 1][..i] == splits[..i];
      if !matched {
        result := result + [splits[i]];
      }
    }
    assert splits[..|splits|] == splits;
    r := Join(result, ",");
  }

  // Splitting and joining

  lemma JoinWithPrefix(prefix: string, pieces: seq<string>, separator: string)
    requires pieces != []
    ensures Join([prefix + pieces[0]] + pieces[1..], separator) == prefix + Join(pieces, separator)
  {
  }

  lemma JoinAfterSeparator(pieces: seq<string>, separator: string)
    requires pieces != []
    ensures Join([""] + pieces, separator) == separator + Join(pieces, separator)
  {
    assert ([""] + pieces)[1..] == pieces;
  }

  lemma {:induction false} JoinOfCharacters(s: string)
    ensures Join(Split(s, ""), "") == s
    decreases |s|
  {
    if |s| > 1 {
      JoinOfCharacters(s[1..]);
      assert Split(s, "")[1..] == Split(s[1..], "");
    }
  }

  lemma JoinOfSplitAtSeparator(s: string, separator: string)
    requires separator != "" && separator <= s
    requires Join(Split(s[|separator|..], separator), separator) == s[|separator|..]
    ensures Join(Split(s, separator), separator) == s
  {
    JoinAfterSeparator(Split(s[|separator|..], separator), separator);
    assert s == separator + s[|separator|..];
  }

  lemma JoinOfSplitInPiece(s: string, separator: string)
    requires separator != "" && !(separator <= s) && s != ""
    requires Join(Split(s[1..], separator), separator) == s[1..]
    ensures Join(Split(s, separator), separator) == s
  {
    JoinWithPrefix([s[0]], Split(s[1..], separator), separator);
    assert s == [s[0]] + s[1..];
  }

  /** Joining undoes splitting, whatever the separator. */
  lemma {:induction false} JoinOfSplit(s: string, separator: string)
    ensures Join(Split(s, separator), separator) == s
    decreases |s|
  {
    if separator == "" {
      JoinOfCharacters(s);
    } else if separator <= s {
      JoinOfSplit(s[|separator|..], separator);
      JoinOfSplitAtSeparator(s, separator);
    } else if s != "" {
      JoinOfSplit(s[1..], separator);
      JoinOfSplitInPiece(s, separator);
    }
  }

  predicate OccursAt(t: string, s: string, k: nat) {
    k <= |s| && t <= s[k..]
  }

  lemma {:induction false} FirstPieceIsAPrefix(s: string, separator: string)
    requires separator != ""
    ensures Split(s, separator)[0] <= s
    decreases |s|
  {
    if s != "" && !(separator <= s) {
      FirstPieceIsAPrefix(s[1..], separator);
      assert s == [s[0]] + s[1..];
    }
  }

  /** Splitting is thorough: no piece contains the separator. */
  lemma {:induction false} SplitIsThorough(s: string, separator: string, i: nat, k: nat)
    requires separator != "" && i < |Split(s, separator)|
    ensures !OccursAt(separator, Split(s, separator)[i], k)
    decreases |s|
  {
    if separator <= s {
      if i > 0 {
        SplitIsThorough(s[|separator|..], separator, i - 1, k);
      }
    } else if s != "" {
      var rest := Split(s[1..], separator);
      if i > 0 {
        SplitIsThorough(s[1..], separator, i, k);
      } else if k > 0 {
        SplitIsThorough(s[1..], separator, 0, k - 1);
        assert Split(s, separator)[0] == [s[0]] + rest[0];
        assert k <= |rest[0]| + 1 ==> ([s[0]] + rest[0])[k..] == rest[0][k - 1..];
      } else {
        FirstPieceIsAPrefix(s, separator);
        var piece := Split(s, separator)[0];
        assert piece[0..] == piece;
      }
    }
  }

  // At commas

  ghost predicate CommaFree(pieces: seq<string>) {
    forall i :: 0 <= i < |pieces| ==> ',' !in pieces[i]
  }

  lemma {:induction false} SplitIsCommaFree(s: string)
    ensures CommaFree(Split(s, ","))
    decreases |s|
  {
    if s != "" {
      SplitIsCommaFree(s[1..]);
      if s[0] != ',' {
        assert ',' !in Split(s[1..], ",")[0];
      }
    }
  }

  lemma {:induction false} SplitAfterPiece(piece: string, rest: string)
    requires ',' !in piece
    ensures Split(piece, ",") == [piece]
    ensures Split(piece + "," + rest, ",") == [piece] + Split(rest, ",")
    decreases |piece|
  {
    var all := piece + "," + rest;
    if piece == "" {
      assert "," <= all && all[1..] == rest;
    } else {
      SplitAfterPiece(piece[1..], rest);
      assert all[1..] == piece[1..] + "," + rest;
      assert piece == [piece[0]] + piece[1..];
      assert piece[0] in piece && all[0] == piece[0];
      assert ([piece[1..]] + Split(rest, ","))[1..] == Split(rest, ",");
    }
  }

  lemma {:induction false} SplitOfJoin(pieces: seq<string>)
    requires pieces != [] && CommaFree(pieces)
    ensures Split(Join(pieces, ","), ",") == pieces
  {
    SplitAfterPiece(pieces[0], Join(pieces[1..], ","));
    if |pieces| > 1 {
      SplitOfJoin(pieces[1..]);
    }
  }

  // Survivors

  lemma {:induction false} SurvivorsMatchNothing(formats: seq<Format>, pieces: seq<string>)
    ensures forall s :: s in Survivors(formats, pieces) <==> s in pieces && !Matches(formats, s)
    ensures forall s :: s in Survivors(formats, pieces) <==> s in pieces && forall f :: f in formats ==> !f(s)
    ensures |Survivors(formats, pieces)| <= |pieces|
    ensures |Survivors(formats, pieces)| == |pieces| <==> forall s :: s in pieces ==> !Matches(formats, s)
  {
    if pieces != [] {
      var n := |pieces| - 1;
      SurvivorsMatchNothing(formats, pieces[..n]);
      assert pieces == pieces[..n] + [pieces[n]];
    }
  }

  lemma {:induction false} AllSurvive(formats: seq<Format>, pieces: seq<string>)
    requires forall s :: s in pieces ==> !Matches(formats, s)
    ensures Survivors(formats, pieces) == pieces
  {
    if pieces != [] {
      var n := |pieces| - 1;
      assert pieces == pieces[..n] + [pieces[n]];
      assert !Matches(formats, pieces[n]);
      forall s | s in pieces[..n] ensures !Matches(formats, s) {
        assert s in pieces;
      }
      AllSurvive(formats, pieces[..n]);
    }
  }

  /** Order and repetition are kept: the survivors of a list are those of its parts, one after the other. */
  lemma {:induction false} SurvivorsOfConcatenation(formats: seq<Format>, a: seq<string>, b: seq<string>)
    ensures Survivors(formats, a + b) == Survivors(formats, a) + Survivors(formats, b)
  {
    if b == [] {
      assert a + b == a;
    } else {
      var n := |b| - 1;
      SurvivorsOfConcatenation(formats, a, b[..n]);
      assert (a + b)[..|a| + n] == a + b[..n] && (a + b)[|a| + n] == b[n];
    }
  }

  lemma SurvivorsAreCommaFree(formats: seq<Format>, input: string)
    ensures CommaFree(Survivors(formats, Split(input, ",")))
  {
    var pieces := Split(input, ",");
    SplitIsCommaFree(input);
    SurvivorsMatchNothing(formats, pieces);
    forall i | 0 <= i < |Survivors(formats, pieces)| ensures ',' !in Survivors(formats, pieces)[i] {
      assert Survivors(formats, pieces)[i] in pieces;
    }
  }

  // The cleaner, on comma-separated lists

  /** What is left of the list is exactly its survivors in order, or the empty entry when all were removed. */
  lemma CleanKeepsSurvivors(formats: seq<Format>, input: string)
    ensures var survivors := Survivors(formats, Split(input, ","));
            Split(Clean(formats, input, ","), ",") == if survivors == [] then [""] else survivors
  {
    SurvivorsAreCommaFree(formats, input);
    if Survivors(formats, Split(input, ",")) != [] {
      SplitOfJoin(Survivors(formats, Split(input, ",")));
    }
  }

  lemma CleanIsIdentityIff(formats: seq<Format>, input: string)
    requires !Matches(formats, "")
    ensures Clean(formats, input, ",") == input <==> forall s :: s in Split(input, ",") ==> !Matches(formats, s)
  {
    var pieces := Split(input, ",");
    SurvivorsMatchNothing(formats, pieces);
    if forall s :: s in pieces ==> !Matches(formats, s) {
      AllSurvive(formats, pieces);
      JoinOfSplit(input, ",");
    } else {
      CleanKeepsSurvivors(formats, input);
    }
  }

  lemma CleanIsIdempotent(formats: seq<Format>, input: string)
    requires !Matches(formats, "")
    ensures Clean(formats, Clean(formats, input, ","), ",") == Clean(formats, input, ",")
  {
    var survivors := Survivors(formats, Split(input, ","));
    CleanKeepsSurvivors(formats, input);
    SurvivorsMatchNothing(formats, Split(input, ","));
    CleanIsIdentityIff(formats, Clean(formats, input, ","));
  }
}
