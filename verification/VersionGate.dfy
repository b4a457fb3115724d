/** The version gate: whether the version a branch declares satisfies the required one, allowing for
    release coordinates that earlier commits of the branch consumed.
  */
module VersionGate {
  import opened Common
  import opened Decimal

  const U128_MAX: nat := 0xFFFF_FFFF_FFFF_FFFF_FFFF_FFFF_FFFF_FFFF

  type U128 = x: nat | x <= U128_MAX

  datatype Version = Version(major: U128, minor: U128, patch: U128)

  datatype Change = Breaking | Additive | Internal

  /** The series of `v` at `patch`. */
  function AtPatch(v: Version, patch: U128): string {
    Digits(v.major) + "." + Digits(v.minor) + "." + Digits(patch)
  }

  function ShowVersion(v: Version): string { AtPatch(v, v.patch) }

  /** The fleet's version parser, as far as it is relied on: it reads back what is printed. */
  ghost predicate ReadsVersions(parse: string -> Option<Version>) {
    forall v :: parse(ShowVersion(v)) == Some(v)
  }

  datatype Verdict =
    | Satisfied
    | SatisfiedAhead(skipped: seq<string>)
    | NotParsed
    | SurfaceRequires
    | SeriesRequires
    | NeverDeclared(coordinate: string)

  predicate Accepted(v: Verdict) { v.Satisfied? || v.SatisfiedAhead? }

  /** What walking the skipped coordinates finds, and how many of them it looks at. */
  datatype Walk = Walk(missing: Option<string>, inspected: nat)

  /** The first coordinate from `patch` up to `end` that nothing declared, looked for one at a time. */
  function FirstMissing(want: Version, patch: U128, end: U128, history: set<string>): Walk
    decreases end - patch
  {
    if patch >= end then Walk(None, 0)
    else if AtPatch(want, patch) !in history then Walk(Some(AtPatch(want, patch)), 1)
    else
      var rest := FirstMissing(want, patch + 1, end, history);
      Walk(rest.missing, rest.inspected + 1)
  }

  function Coordinates(want: Version, patch: U128, end: U128): seq<string>
    decreases end - patch
  {
    if patch >= end then [] else [AtPatch(want, patch)] + Coordinates(want, patch + 1, end)
  }

  predicate AheadInSeries(have: Version, want: Version) {
    have.major == want.major && have.minor == want.minor && want.patch < have.patch
  }

  function Compare(
      parse: string -> Option<Version>, declared: string, released: string, change: Change, required: string,
      history: set<string>): Verdict
  {
    if declared == released then (if change != Internal then SurfaceRequires else Satisfied)
    else if declared == required then Satisfied
    else
      match parse(required)
      case None => NotParsed
      case Some(want) =>
        match parse(declared)
        case None => NotParsed
        case Some(have) =>
          if !AheadInSeries(have, want) then SeriesRequires
          else
            match FirstMissing(want, want.patch, have.patch, history).missing
            case Some(coordinate) => NeverDeclared(coordinate)
            case None => SatisfiedAhead(Coordinates(want, want.patch, have.patch))
  }

  // ---- What the walk finds ----

  ghost predicate AllDeclared(want: Version, patch: nat, end: nat, history: set<string>)
    requires end <= U128_MAX
  {
    forall p: nat :: patch <= p < end ==> AtPatch(want, p) in history
  }

  lemma {:induction false} WalkFindsFirst(want: Version, patch: U128, end: U128, history: set<string>)
    ensures FirstMissing(want, patch, end, history).missing.None? <==> AllDeclared(want, patch, end, history)
    ensures FirstMissing(want, patch, end, history).missing.Some? ==>
              exists p: nat ::
                && patch <= p < end && AtPatch(want, p) !in history && AllDeclared(want, patch, p, history)
                && FirstMissing(want, patch, end, history).missing == Some(AtPatch(want, p))
    decreases end - patch
  {
    if patch < end && AtPatch(want, patch) in history {
      WalkFindsFirst(want, patch + 1, end, history);
      if FirstMissing(want, patch, end, history).missing.Some? {
        var p: nat :| patch + 1 <= p < end && AtPatch(want, p) !in history && AllDeclared(want, patch + 1, p, history)
                      && FirstMissing(want, patch + 1, end, history).missing == Some(AtPatch(want, p));
        assert AllDeclared(want, patch, p, history);
      }
    } else if patch < end {
      assert AllDeclared(want, patch, patch, history);
    }
  }

  /** `s` is decimal text of `n`, without a leading zero. */
  predicate Writes(s: string, n: nat) {
    s != [] && AllDigits(s) && PlaceValue(s) == n && (s[0] == '0' ==> s == "0")
  }

  /** A coordinate is the decimal text of major, minor and patch, with a dot between. */
  lemma CoordinateParts(v: Version, patch: U128)
    ensures exists a: string, b: string, c: string ::
              && Writes(a, v.major) && Writes(b, v.minor) && Writes(c, patch)
              && AtPatch(v, patch) == a + "." + b + "." + c
  {
    DigitsCount(v.major);
    DigitsCount(v.minor);
    DigitsCount(patch);
    assert Writes(Digits(v.major), v.major) && Writes(Digits(v.minor), v.minor) && Writes(Digits(patch), patch);
    assert AtPatch(v, patch) == Digits(v.major) + "." + Digits(v.minor) + "." + Digits(patch);
  }

  lemma AtPatchInjective(want: Version, p: U128, q: U128)
    requires AtPatch(want, p) == AtPatch(want, q)
    ensures p == q
  {
    var front := Digits(want.major) + "." + Digits(want.minor) + ".";
    assert AtPatch(want, p)[|front|..] == Digits(p) && AtPatch(want, q)[|front|..] == Digits(q);
    DigitsInjective(p, q);
  }

  ghost function CoordinateSet(want: Version, patch: nat, end: nat): set<string>
    requires end <= U128_MAX
  {
    set p: nat | patch <= p < end :: AtPatch(want, p)
  }

  /** Distinct patches are distinct coordinates, so as many coordinates as patches. */
  lemma {:induction false} CoordinateCount(want: Version, patch: nat, end: nat)
    requires patch <= end <= U128_MAX
    ensures |CoordinateSet(want, patch, end)| == end - patch
    decreases end - patch
  {
    if patch < end {
      var fewer := CoordinateSet(want, patch, end - 1);
      CoordinateCount(want, patch, end - 1);
      assert CoordinateSet(want, patch, end) == fewer + {AtPatch(want, end - 1)};
      assert AtPatch(want, end - 1) !in fewer by {
        forall p: nat | patch <= p < end - 1 ensures AtPatch(want, p) != AtPatch(want, end - 1) {
          if AtPatch(want, p) == AtPatch(want, end - 1) { AtPatchInjective(want, p, end - 1); }
        }
      }
    }
  }

  lemma DeclaredAtMostHistory(want: Version, patch: nat, end: nat, history: set<string>)
    requires patch <= end <= U128_MAX && AllDeclared(want, patch, end, history)
    ensures end - patch <= |history|
  {
    CoordinateCount(want, patch, end);
    var some := CoordinateSet(want, patch, end);
    assert some <= history;
    assert history == some + (history - some);
  }

  lemma {:induction false} InspectedAreDeclared(want: Version, patch: U128, end: U128, history: set<string>)
    ensures var walk := FirstMissing(want, patch, end, history);
            var held := if walk.missing.Some? then walk.inspected - 1 else walk.inspected;
            && 0 <= held && (patch < end ==> patch + held <= end) && (patch >= end ==> held == 0)
            && (patch + held <= U128_MAX && AllDeclared(want, patch, patch + held, history))
            && (walk.missing == if patch + held < end then Some(AtPatch(want, patch + held)) else None)
    decreases end - patch
  {
    if patch < end && AtPatch(want, patch) in history {
      InspectedAreDeclared(want, patch + 1, end, history);
    }
  }

  /** For a gap of any size the walk looks at no more coordinates than the history holds, and one. */
  lemma LazyWalkBound(want: Version, have: Version, history: set<string>)
    ensures FirstMissing(want, want.patch, have.patch, history).inspected <= |history| + 1
  {
    var walk := FirstMissing(want, want.patch, have.patch, history);
    InspectedAreDeclared(want, want.patch, have.patch, history);
    var held := if walk.missing.Some? then walk.inspected - 1 else walk.inspected;
    DeclaredAtMostHistory(want, want.patch, want.patch + held, history);
  }

  lemma {:induction false} CoordinatesAreAll(want: Version, patch: U128, end: U128)
    requires patch <= end
    ensures |Coordinates(want, patch, end)| == end - patch
    ensures forall i: nat :: i < end - patch ==> Coordinates(want, patch, end)[i] == AtPatch(want, patch + i)
    decreases end - patch
  {
    if patch < end {
      CoordinatesAreAll(want, patch + 1, end);
    }
  }

  // ---- What is accepted ----

  /** Exactly what the comparison accepts. */
  lemma AcceptsExactly(
      parse: string -> Option<Version>, declared: string, released: string, change: Change, required: string,
      history: set<string>)
    ensures Accepted(Compare(parse, declared, released, change, required, history)) <==>
              || (declared == released && change == Internal)
              || (declared != released && declared == required)
              || (&& declared != released && parse(required).Some? && parse(declared).Some?
                  && parse(declared).value.major == parse(required).value.major
                  && parse(declared).value.minor == parse(required).value.minor
                  && parse(required).value.patch < parse(declared).value.patch
                  && AllDeclared(parse(required).value, parse(required).value.patch, parse(declared).value.patch,
                                 history))
  {
    if declared != released && declared != required && parse(required).Some? && parse(declared).Some? {
      WalkFindsFirst(parse(required).value, parse(required).value.patch, parse(declared).value.patch, history);
    } else if declared != released && declared == required && parse(required).Some? {
      assert !AheadInSeries(parse(declared).value, parse(required).value);
    }
  }

  /** Which refusal a version meets that is not accepted: the surface changed, a version does not parse, the
      series or the patch is not ahead, or a coordinate between was never declared. */
  lemma RefusesExactly(
      parse: string -> Option<Version>, declared: string, released: string, change: Change, required: string,
      history: set<string>)
    ensures var verdict := Compare(parse, declared, released, change, required, history);
            && (verdict.SurfaceRequires? <==> declared == released && change != Internal)
            && (verdict.NotParsed? <==>
                  declared != released && declared != required && (parse(required).None? || parse(declared).None?))
            && (declared != released && declared != required && parse(required).Some? && parse(declared).Some? ==>
                  var want, have := parse(required).value, parse(declared).value;
                  && (verdict.SeriesRequires? <==>
                        !(have.major == want.major && have.minor == want.minor && want.patch < have.patch))
                  && (verdict.NeverDeclared? <==>
                        && have.major == want.major && have.minor == want.minor && want.patch < have.patch
                        && !AllDeclared(want, want.patch, have.patch, history)))
  {
    if declared != released && declared != required && parse(required).Some? && parse(declared).Some? {
      WalkFindsFirst(parse(required).value, parse(required).value.patch, parse(declared).value.patch, history);
    }
  }

  /** An acceptance ahead of the required version lists every coordinate from the required patch up to the
      declared one, in order: all of them declared before, and so no more than the history holds. */
  lemma SkippedIsBounded(
      parse: string -> Option<Version>, declared: string, released: string, change: Change, required: string,
      history: set<string>)
    requires Compare(parse, declared, released, change, required, history).SatisfiedAhead?
    ensures var skipped := Compare(parse, declared, released, change, required, history).skipped;
            && parse(required).Some? && parse(declared).Some?
            && parse(required).value.patch + |skipped| == parse(declared).value.patch
            && 0 < |skipped| <= |history|
            && forall i :: 0 <= i < |skipped| ==>
                 skipped[i] == AtPatch(parse(required).value, parse(required).value.patch + i) && skipped[i] in history
  {
    var want, have := parse(required).value, parse(declared).value;
    WalkFindsFirst(want, want.patch, have.patch, history);
    DeclaredAtMostHistory(want, want.patch, have.patch, history);
    CoordinatesAreAll(want, want.patch, have.patch);
    var skipped := Coordinates(want, want.patch, have.patch);
    forall i | 0 <= i < |skipped| ensures skipped[i] in history {
      assert skipped[i] == AtPatch(want, want.patch + i);
    }
  }

  /** A refused jump names the first coordinate nothing declared. */
  lemma RefusalNamesFirstGap(
      parse: string -> Option<Version>, declared: string, released: string, change: Change, required: string,
      history: set<string>)
    requires Compare(parse, declared, released, change, required, history).NeverDeclared?
    ensures parse(required).Some? && parse(declared).Some?
    ensures exists p: nat ::
              && parse(required).value.patch <= p < parse(declared).value.patch
              && Compare(parse, declared, released, change, required, history).coordinate ==
                    AtPatch(parse(required).value, p)
              && AtPatch(parse(required).value, p) !in history
              && AllDeclared(parse(required).value, parse(required).value.patch, p, history)
  {
    var want, have := parse(required).value, parse(declared).value;
    WalkFindsFirst(want, want.patch, have.patch, history);
  }

  /** With nothing declared before, only the released version of an internal change and the required version
      itself are accepted; every jump is refused, naming the required coordinate. */
  lemma EmptyHistoryRefusesJumps(
      parse: string -> Option<Version>, declared: string, released: string, change: Change, want: Version)
    requires ReadsVersions(parse)
    ensures var verdict := Compare(parse, declared, released, change, ShowVersion(want), {});
            && (Accepted(verdict) <==>
                  || (declared == released && change == Internal)
                  || (declared != released && declared == ShowVersion(want)))
            && (verdict.NeverDeclared? ==> verdict.coordinate == ShowVersion(want))
  {
    AcceptsExactly(parse, declared, released, change, ShowVersion(want), {});
    if parse(declared).Some? && AheadInSeries(parse(declared).value, want) {
      assert AtPatch(want, want.patch) !in {};
    }
  }

  /** What the gate checks of its own comparison: with no history, the largest patch number there is passes
      only as the required or the released version itself. */
  lemma FurthestPatchRefused(parse: string -> Option<Version>, released: string, want: Version)
    requires ReadsVersions(parse)
    ensures U128_MAX == 340282366920938463463374607431768211455
    ensures Accepted(Compare(parse, AtPatch(want, U128_MAX), released, Internal, ShowVersion(want), {})) <==>
              released == AtPatch(want, U128_MAX) || want.patch == U128_MAX
  {
    EmptyHistoryRefusesJumps(parse, AtPatch(want, U128_MAX), released, Internal, want);
    if AtPatch(want, U128_MAX) == ShowVersion(want) { AtPatchInjective(want, U128_MAX, want.patch); }
  }

  // ---- The branch ----

  /** The versions earlier manifest commits declared: `log` is newest first, `None` a manifest that names no
      version. One commit alone, or an earlier manifest without a version, is refused. */
  function DeclaredInHistory(log: seq<Option<string>>): Option<set<string>> {
    if |log| <= 1 then None
    else if exists i :: 1 <= i < |log| && log[i].None? then None
    else Some(set i | 1 <= i < |log| && log[i].Some? :: log[i].value)
  }

  /** A history is refused exactly when it is one commit deep or an earlier manifest names no version; otherwise
      it holds the versions of the earlier manifests and nothing else. */
  lemma HistoryExactly(log: seq<Option<string>>)
    ensures DeclaredInHistory(log).None? <==> |log| <= 1 || None in log[1..]
    ensures DeclaredInHistory(log).Some? ==>
              forall v :: v in DeclaredInHistory(log).value <==> Some(v) in log[1..]
  {
    assert forall i :: 1 <= i < |log| ==> log[i] == log[1..][i - 1];
    assert forall i :: 0 <= i < |log| - 1 ==> log[1..][i] == log[i + 1];
    if DeclaredInHistory(log).Some? {
      forall v | Some(v) in log[1..] ensures v in DeclaredInHistory(log).value {
        var i :| 0 <= i < |log[1..]| && log[1..][i] == Some(v);
        assert log[i + 1] == Some(v);
      }
    }
  }

  /** The newest-first log at commit `n` of a branch whose manifests declared `versions`, oldest first. */
  function LogAt(versions: seq<string>, n: nat): seq<Option<string>>
    requires n < |versions|
  {
    seq(n + 1, i requires 0 <= i <= n => Some(versions[n - i]))
  }

  ghost function Earlier(versions: seq<string>, n: nat): set<string>
    requires n <= |versions|
  {
    set i | 0 <= i < n :: versions[i]
  }

  lemma HistoryIsEarlier(versions: seq<string>, n: nat)
    requires n < |versions|
    ensures DeclaredInHistory(LogAt(versions, n)) == if n == 0 then None else Some(Earlier(versions, n))
  {
    var log := LogAt(versions, n);
    if n > 0 {
      var found := set i | 1 <= i < |log| && log[i].Some? :: log[i].value;
      forall v | v in Earlier(versions, n) ensures v in found {
        var i :| 0 <= i < n && versions[i] == v;
        assert log[n - i] == Some(v);
      }
      assert found == Earlier(versions, n);
    }
  }

  /** The gate passes at commit `n`. */
  ghost predicate Passes(
    parse: string -> Option<Version>, versions: seq<string>, n: nat, released: string, change: Change, required: string)
    requires n < |versions|
  {
    && DeclaredInHistory(LogAt(versions, n)).Some?
    && Accepted(Compare(parse, versions[n], released, change, required, DeclaredInHistory(LogAt(versions, n)).value))
  }

  /** `text` declares a version of the required series at or above the required patch. */
  predicate AtOrAbove(parse: string -> Option<Version>, text: string, want: Version) {
    && parse(text).Some? && parse(text).value.major == want.major && parse(text).value.minor == want.minor
    && want.patch <= parse(text).value.patch
  }

  /** The patches of the required series, at or above the required one, declared by the first `n` commits. */
  ghost function Patches(parse: string -> Option<Version>, versions: seq<string>, n: nat, want: Version): set<nat>
    requires n <= |versions|
  {
    set i | 0 <= i < n && AtOrAbove(parse, versions[i], want) :: parse(versions[i]).value.patch
  }

  /** The branch starts after `from` commits that declared nothing at or above the required version; every
      later commit passed the gate against one released and required version. Then what it declared in the
      required series is an interval that starts at the required patch: no coordinate was ever skipped. */
  lemma {:induction false} BranchIsContiguous(
      parse: string -> Option<Version>, versions: seq<string>, from: nat, n: nat, released: string,
      changes: seq<Change>, want: Version, p: nat, q: nat)
    requires ReadsVersions(parse) && from <= n <= |versions| && |changes| == |versions|
    requires forall i :: 0 <= i < from ==> !AtOrAbove(parse, versions[i], want)
    requires !AtOrAbove(parse, released, want)
    requires forall i :: from <= i < n ==> Passes(parse, versions, i, released, changes[i], ShowVersion(want))
    requires p in Patches(parse, versions, n, want) && want.patch <= q <= p
    ensures q in Patches(parse, versions, n, want)
  {
    var i :| 0 <= i < n && AtOrAbove(parse, versions[i], want) && parse(versions[i]).value.patch == p;
    if i < n - 1 {
      assert p in Patches(parse, versions, n - 1, want);
      BranchIsContiguous(parse, versions, from, n - 1, released, changes, want, p, q);
    } else if q < p {
      assert Passes(parse, versions, i, released, changes[i], ShowVersion(want));
      HistoryIsEarlier(versions, i);
      AcceptsExactly(parse, versions[i], released, changes[i], ShowVersion(want), Earlier(versions, i));
      assert AtPatch(want, q) in Earlier(versions, i);
      var j :| 0 <= j < i && versions[j] == AtPatch(want, q);
      assert parse(ShowVersion(want.(patch := q))) == Some(want.(patch := q));
    }
  }
}
