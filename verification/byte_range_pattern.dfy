/**
 The regular expression `/\/ByteRange \[(\d+) +(\d+) +(\d+) +(\d+) *\]/`
 applied with `exec` to the text of the ByteRange declaration, written out
 as a byte-level matcher, together with `parseInt` of its four captures.

 After the literal `/ByteRange [` the pattern is a list of repeated byte
 classes (`Steps`) closed by `]`. A match splits the text into one piece per
 step; `MatchesAt` says declaratively that a text holds such a split at some
 offset. `MatchAt` is the greedy matcher at one offset and `Search` the
 leftmost-offset scan that `exec` performs. Greedy matching loses nothing:
 each step is followed by a byte outside its class, so backtracking could
 never succeed where the greedy choice failed (`MatchAtComplete`).
 */
module ByteRangePattern {
  import opened Bytes
  import opened Options

  /** The four integers of a ByteRange declaration, in order. */
  datatype ByteRange = ByteRange(start1: nat, length1: nat, start2: nat, length2: nat)

  /** The two byte classes the pattern repeats: `\d` and the space. */
  datatype Class = Digits | Spaces

  /** `cls` repeated at least `min` times: `\d+` is `Repeat(Digits, 1)`,
      ` *` is `Repeat(Spaces, 0)`. */
  datatype Repeat = Repeat(cls: Class, min: nat)

  /** `(\d+) +(\d+) +(\d+) +(\d+) *`, the part between `[` and `]`; the
      captures are the pieces at indices 0, 2, 4 and 6. */
  const Steps: seq<Repeat> := [
    Repeat(Digits, 1), Repeat(Spaces, 1),
    Repeat(Digits, 1), Repeat(Spaces, 1),
    Repeat(Digits, 1), Repeat(Spaces, 1),
    Repeat(Digits, 1), Repeat(Spaces, 0)]

  /** A match found by `exec`: where it starts and the piece per step. */
  datatype Found = Found(start: nat, pieces: seq<seq<byte>>)

  predicate InClass(b: byte, cls: Class) {
    match cls
    case Digits => IsDigit(b)
    case Spaces => IsSpace(b)
  }

  predicate AllIn(s: seq<byte>, cls: Class) {
    forall k :: 0 <= k < |s| ==> InClass(s[k], cls)
  }

  predicate AllDigits(s: seq<byte>) {
    AllIn(s, Digits)
  }

  /** Each piece is a run of its step's class, long enough for the step. */
  predicate Fits(pieces: seq<seq<byte>>, steps: seq<Repeat>) {
    && |pieces| == |steps|
    && forall i :: 0 <= i < |pieces| ==> |pieces[i]| >= steps[i].min && AllIn(pieces[i], steps[i].cls)
  }

  /** Step `i` repeats another class than step `i - 1` and, unless it is
      the last step, cannot be empty. */
  predicate Follows(steps: seq<Repeat>, i: nat)
    requires 1 <= i < |steps|
  {
    steps[i - 1].cls != steps[i].cls && (steps[i].min >= 1 || i == |steps| - 1)
  }

  /** Every step follows its predecessor in that sense: a run always ends
      where the next one, or the final `]`, starts. */
  predicate Deterministic(steps: seq<Repeat>) {
    forall i :: 1 <= i < |steps| ==> Follows(steps, i)
  }

  function Flatten(pieces: seq<seq<byte>>): seq<byte> {
    if |pieces| == 0 then [] else pieces[0] + Flatten(pieces[1..])
  }

  /** The bytes of a whole match that splits as `pieces`. */
  function Spelling(pieces: seq<seq<byte>>): seq<byte> {
    Marker + (Flatten(pieces) + [CloseBracket])
  }

  /** The pattern matches `t` at offset `j`, splitting as `pieces`. */
  predicate MatchesAt(t: seq<byte>, j: nat, pieces: seq<seq<byte>>) {
    && Fits(pieces, Steps)
    && j + |Spelling(pieces)| <= |t|
    && t[j..j + |Spelling(pieces)|] == Spelling(pieces)
  }

  /** The pattern matches somewhere in `t`. */
  ghost predicate MatchesSomewhere(t: seq<byte>) {
    exists j: nat, ps :: MatchesAt(t, j, ps)
  }

  /** From offset `pos` on, `t` spells the pieces and then `]`. */
  predicate SpelledFrom(t: seq<byte>, pos: nat, ps: seq<seq<byte>>) {
    pos + |Flatten(ps)| < |t| && t[pos..pos + |Flatten(ps)| + 1] == Flatten(ps) + [CloseBracket]
  }

  /** The end of the longest run of bytes of class `cls` that starts at `j`. */
  function RunEnd(t: seq<byte>, j: nat, cls: Class): (e: nat)
    requires j <= |t|
    decreases |t| - j
    ensures j <= e <= |t|
    ensures AllIn(t[j..e], cls)
    ensures e < |t| ==> !InClass(t[e], cls)
  {
    if j < |t| && InClass(t[j], cls) then RunEnd(t, j + 1, cls) else j
  }

  /** The steps from offset `pos` on, each run taken greedily, then `]`. */
  function MatchSteps(t: seq<byte>, pos: nat, steps: seq<Repeat>): (r: Option<seq<seq<byte>>>)
    requires pos <= |t|
    decreases |steps|
  {
    if |steps| == 0 then
      if pos < |t| && t[pos] == CloseBracket then Some([]) else None
    else
      var e := RunEnd(t, pos, steps[0].cls);
      if e - pos < steps[0].min then None
      else
        match MatchSteps(t, e, steps[1..])
        case None => None
        case Some(rest) => Some([t[pos..e]] + rest)
  }

  /** The pattern anchored at offset `j`. */
  function MatchAt(t: seq<byte>, j: nat): (r: Option<seq<seq<byte>>>)
  {
    if j + |Marker| <= |t| && t[j..j + |Marker|] == Marker then MatchSteps(t, j + |Marker|, Steps) else None
  }

  /** The leftmost offset `j` in `from..last` at which `at(j)` holds a value:
      the scan `exec` performs over the possible start offsets of a match. */
  function Leftmost<X>(at: nat -> Option<X>, from: nat, last: nat): (r: Option<(nat, X)>)
    decreases last - from
    ensures r.Some? ==>
              && from <= r.value.0 <= last
              && at(r.value.0) == Some(r.value.1)
              && forall j :: from <= j < r.value.0 ==> at(j).None?
    ensures r.None? ==> forall j :: from <= j <= last ==> at(j).None?
  {
    if last < from then None
    else
      match at(from)
      case Some(x) => Some((from, x))
      case None => Leftmost(at, from + 1, last)
  }

  /** `exec`: the leftmost match of the pattern in `t`. */
  function Search(t: seq<byte>): (r: Option<Found>)
    ensures r.Some? ==> MatchesAt(t, r.value.start, r.value.pieces)
  {
    match Leftmost(j => MatchAt(t, j), 0, |t|)
    case None => None
    case Some((j, ps)) =>
      MatchAtSound(t, j);
      Some(Found(j, ps))
  }

  /** `parseInt` of a string of decimal digits, most significant first. */
  function DecimalValue(d: seq<byte>): nat
    requires AllDigits(d)
  {
    if |d| == 0 then 0 else DecimalValue(d[..|d| - 1]) * 10 + DigitValue(d[|d| - 1])
  }

  /** The shortest decimal numeral of `n`. */
  function Decimal(n: nat): (d: seq<byte>)
    ensures |d| > 0 && AllDigits(d)
  {
    if n < 10 then [0x30 + n] else Decimal(n / 10) + [0x30 + n % 10]
  }

  /** The four captures of a match, as `matches.slice(1, 5).map(Number)`. */
  function Captures(pieces: seq<seq<byte>>): ByteRange
    requires Fits(pieces, Steps)
  {
    ByteRange(DecimalValue(pieces[0]), DecimalValue(pieces[2]), DecimalValue(pieces[4]), DecimalValue(pieces[6]))
  }

  // ---------------------------------------------------------------------
  // Decimal captures

  /** Reading the numeral of `n` gives `n` back. */
  lemma {:induction false} DecimalRoundTrip(n: nat)
    ensures DecimalValue(Decimal(n)) == n
  {
    if n >= 10 {
      var d := Decimal(n);
      assert d[..|d| - 1] == Decimal(n / 10);
      DecimalRoundTrip(n / 10);
    }
  }

  /** A leading `0` does not change the value `parseInt` reads. */
  lemma {:induction false} DecimalLeadingZero(d: seq<byte>)
    requires AllDigits(d)
    ensures AllDigits([DigitZero] + d)
    ensures DecimalValue([DigitZero] + d) == DecimalValue(d)
  {
    if |d| > 0 {
      var z := [DigitZero] + d;
      assert z[..|z| - 1] == [DigitZero] + d[..|d| - 1];
      DecimalLeadingZero(d[..|d| - 1]);
    }
  }

  // ---------------------------------------------------------------------
  // The greedy matcher against the declarative pattern

  lemma StepsDeterministic()
    ensures Deterministic(Steps)
  {
    forall i | 1 <= i < |Steps|
      ensures Follows(Steps, i)
    {
      assert Steps[i].cls == if i % 2 == 0 then Digits else Spaces;
    }
  }

  /** A piece in front of pieces that fit the later steps fits all steps. */
  lemma FitsCons(p: seq<byte>, rest: seq<seq<byte>>, steps: seq<Repeat>)
    requires |steps| > 0 && |p| >= steps[0].min && AllIn(p, steps[0].cls)
    requires Fits(rest, steps[1..])
    ensures Fits([p] + rest, steps)
  {
    var ps := [p] + rest;
    forall i | 0 <= i < |ps|
      ensures |ps[i]| >= steps[i].min && AllIn(ps[i], steps[i].cls)
    {
      if i > 0 {
        assert ps[i] == rest[i - 1];
      }
    }
  }

  /** The pieces after the first fit the steps after the first. */
  lemma FitsTail(ps: seq<seq<byte>>, steps: seq<Repeat>)
    requires Fits(ps, steps) && |ps| > 0
    ensures Fits(ps[1..], steps[1..])
  {
    forall i | 0 <= i < |ps[1..]|
      ensures |ps[1..][i]| >= steps[1..][i].min && AllIn(ps[1..][i], steps[1..][i].cls)
    {
      assert ps[1..][i] == ps[i + 1];
    }
  }

  /** Flattening a piece in front of others puts its bytes first. */
  lemma FlattenCons(p: seq<byte>, rest: seq<seq<byte>>)
    ensures Flatten([p] + rest) == p + Flatten(rest)
  {
    assert ([p] + rest)[1..] == rest;
  }

  /** What a successful step of the matcher consists of: a long enough run
      of the first class, then a match of the later steps. */
  lemma MatchStepsUnfold(t: seq<byte>, pos: nat, steps: seq<Repeat>)
    requires pos <= |t| && |steps| > 0 && MatchSteps(t, pos, steps).Some?
    ensures var e := RunEnd(t, pos, steps[0].cls);
            && e - pos >= steps[0].min
            && MatchSteps(t, e, steps[1..]).Some?
            && MatchSteps(t, pos, steps).value == [t[pos..e]] + MatchSteps(t, e, steps[1..]).value
  {
  }

  /** With no steps left the matcher reports no pieces, after checking `]`. */
  lemma MatchStepsSoundEnd(t: seq<byte>, pos: nat)
    requires pos <= |t| && MatchSteps(t, pos, []).Some?
    ensures MatchSteps(t, pos, []).value == []
    ensures pos < |t| && t[pos..pos + 1] == Flatten([]) + [CloseBracket]
  {
    assert t[pos..pos + 1] == [CloseBracket];
  }

  /** Soundness of the step matcher: what it reports fits the steps and is
      spelled out in the text, followed by `]`. */
  lemma {:induction false} MatchStepsSound(t: seq<byte>, pos: nat, steps: seq<Repeat>)
    requires pos <= |t| && MatchSteps(t, pos, steps).Some?
    ensures var ps := MatchSteps(t, pos, steps).value;
            && Fits(ps, steps)
            && SpelledFrom(t, pos, ps)
    decreases |steps|
  {
    var ps := MatchSteps(t, pos, steps).value;
    if |steps| == 0 {
      MatchStepsSoundEnd(t, pos);
    } else {
      var e := RunEnd(t, pos, steps[0].cls);
      MatchStepsUnfold(t, pos, steps);
      MatchStepsSound(t, e, steps[1..]);
      var rest := MatchSteps(t, e, steps[1..]).value;
      var p := t[pos..e];
      FitsCons(p, rest, steps);
      FlattenCons(p, rest);
      var n := |Flatten(rest)|;
      assert t[pos..e + n + 1] == t[pos..e] + t[e..e + n + 1];
      assert p + (Flatten(rest) + [CloseBracket]) == (p + Flatten(rest)) + [CloseBracket];
    }
  }

  /** A run that stops right before a byte outside its class is what
      `RunEnd` finds. */
  lemma {:induction false} RunEndExact(t: seq<byte>, j: nat, n: nat, cls: Class)
    requires j + n <= |t|
    requires forall k :: j <= k < j + n ==> InClass(t[k], cls)
    requires j + n < |t| ==> !InClass(t[j + n], cls)
    ensures RunEnd(t, j, cls) == j + n
    decreases n
  {
    if n > 0 {
      RunEndExact(t, j + 1, n - 1, cls);
    }
  }

  /** `]` is in neither class, and the two classes share no byte. */
  lemma ClassesDisjoint(b: byte, c1: Class, c2: Class)
    ensures !InClass(CloseBracket, c1)
    ensures c1 != c2 && InClass(b, c2) ==> !InClass(b, c1)
  {
  }

  /** Completeness of the step matcher: a text that spells out pieces fitting
      deterministic steps is matched with exactly those pieces. */
  lemma {:induction false} MatchStepsComplete(t: seq<byte>, pos: nat, steps: seq<Repeat>, ps: seq<seq<byte>>)
    requires Deterministic(steps) && Fits(ps, steps)
    requires SpelledFrom(t, pos, ps)
    ensures MatchSteps(t, pos, steps).Some? && MatchSteps(t, pos, steps).value == ps
    decreases |steps|
  {
    if |steps| == 0 {
      MatchStepsCompleteEnd(t, pos, ps);
    } else {
      FirstRunExact(t, pos, steps, ps);
      FitsTail(ps, steps);
      DeterministicTail(steps);
      MatchStepsComplete(t, pos + |ps[0]|, steps[1..], ps[1..]);
      MatchStepsStep(t, pos, steps, ps);
    }
  }

  /** With no steps left, only `]` remains to be matched. */
  lemma MatchStepsCompleteEnd(t: seq<byte>, pos: nat, ps: seq<seq<byte>>)
    requires Fits(ps, [])
    requires SpelledFrom(t, pos, ps)
    ensures MatchSteps(t, pos, []).Some? && MatchSteps(t, pos, []).value == ps
  {
    assert ps == [];
    assert t[pos..pos + 1] == [CloseBracket];
    assert t[pos] == CloseBracket;
  }

  /** One step of the matcher: a long enough run, then the later steps. */
  lemma MatchStepsStep(t: seq<byte>, pos: nat, steps: seq<Repeat>, ps: seq<seq<byte>>)
    requires pos <= |t| && |steps| > 0 && |ps| > 0
    requires |ps[0]| >= steps[0].min
    requires RunEnd(t, pos, steps[0].cls) == pos + |ps[0]|
    requires t[pos..pos + |ps[0]|] == ps[0]
    requires MatchSteps(t, pos + |ps[0]|, steps[1..]).Some? && MatchSteps(t, pos + |ps[0]|, steps[1..]).value == ps[1..]
    ensures MatchSteps(t, pos, steps).Some? && MatchSteps(t, pos, steps).value == ps
  {
    assert ps == [ps[0]] + ps[1..];
  }

  /** The steps after the first keep the property. */
  lemma DeterministicTail(steps: seq<Repeat>)
    requires Deterministic(steps) && |steps| > 0
    ensures Deterministic(steps[1..])
  {
    forall i | 1 <= i < |steps[1..]|
      ensures Follows(steps[1..], i)
    {
      assert Follows(steps, i + 1);
      assert steps[1..][i - 1] == steps[i] && steps[1..][i] == steps[i + 1];
    }
  }

  /** In a text spelling `p0`, then the later pieces, then `]`, the greedy
      run of the first step ends exactly where `p0` does, and the rest of
      the text spells the later pieces and `]`. */
  lemma FirstRunExact(t: seq<byte>, pos: nat, steps: seq<Repeat>, ps: seq<seq<byte>>)
    requires Deterministic(steps) && Fits(ps, steps) && |ps| > 0
    requires SpelledFrom(t, pos, ps)
    ensures var e := pos + |ps[0]|;
            && |ps[0]| >= steps[0].min
            && RunEnd(t, pos, steps[0].cls) == e
            && t[pos..e] == ps[0]
            && SpelledFrom(t, e, ps[1..])
  {
    var p0 := ps[0];
    var rest := ps[1..];
    assert ps == [p0] + rest;
    FlattenCons(p0, rest);
    var n0 := |p0|;
    var n := |Flatten(rest)|;
    var e := pos + n0;
    var w := t[pos..pos + n0 + n + 1];
    assert w == p0 + (Flatten(rest) + [CloseBracket]);
    assert t[pos..e] == p0 by {
      forall k | 0 <= k < n0
        ensures t[pos..e][k] == p0[k]
      {
        assert w[k] == t[pos + k];
      }
    }
    assert t[e..e + n + 1] == Flatten(rest) + [CloseBracket] by {
      forall k | 0 <= k < n + 1
        ensures t[e..e + n + 1][k] == (Flatten(rest) + [CloseBracket])[k]
      {
        assert w[n0 + k] == t[e + k];
      }
    }
    forall k | pos <= k < e
      ensures InClass(t[k], steps[0].cls)
    {
      assert t[k] == p0[k - pos];
    }
    // The byte after the first run starts the next piece, or is `]`.
    if |rest| > 0 {
      assert Follows(steps, 1);
    }
    if |rest| > 0 && |rest[0]| > 0 {
      FlattenCons(rest[0], rest[1..]);
      assert rest == [rest[0]] + rest[1..];
      assert t[e] == rest[0][0];
      assert InClass(rest[0][0], steps[1].cls) by {
        assert rest[0] == ps[1];
      }
      ClassesDisjoint(t[e], steps[0].cls, steps[1].cls);
    } else {
      if |rest| > 0 {
        // An empty piece can only come from the last step.
        assert |rest[0]| >= steps[1].min by {
          assert rest[0] == ps[1];
        }
        assert |rest| == 1;
        FlattenCons(rest[0], rest[1..]);
        assert rest == [rest[0]] + rest[1..];
      }
      assert t[e] == CloseBracket;
      ClassesDisjoint(t[e], steps[0].cls, steps[0].cls);
    }
    RunEndExact(t, pos, n0, steps[0].cls);
  }

  /** The marker followed by a step match spells marker, pieces and `]`. */
  lemma MarkerThenSteps(t: seq<byte>, j: nat, steps: seq<Repeat>)
    requires j + |Marker| <= |t| && t[j..j + |Marker|] == Marker
    requires MatchSteps(t, j + |Marker|, steps).Some?
    ensures var ps := MatchSteps(t, j + |Marker|, steps).value;
            && Fits(ps, steps)
            && j + |Marker| + |Flatten(ps)| < |t|
            && t[j..j + |Marker| + |Flatten(ps)| + 1] == Marker + (Flatten(ps) + [CloseBracket])
  {
    var a := j + |Marker|;
    var ps := MatchSteps(t, a, steps).value;
    MatchStepsSound(t, a, steps);
    assert t[j..a + |Flatten(ps)| + 1] == t[j..a] + t[a..a + |Flatten(ps)| + 1];
  }

  /** Soundness: what `MatchAt` reports is a match. */
  lemma MatchAtSound(t: seq<byte>, j: nat)
    requires MatchAt(t, j).Some?
    ensures MatchesAt(t, j, MatchAt(t, j).value)
  {
    MarkerThenSteps(t, j, Steps);
  }

  /** Completeness and uniqueness: wherever the pattern matches, the greedy
      matcher finds that very split. */
  lemma MatchAtComplete(t: seq<byte>, j: nat, ps: seq<seq<byte>>)
    requires MatchesAt(t, j, ps)
    ensures MatchAt(t, j) == Some(ps)
  {
    var a := j + |Marker|;
    var n := |Flatten(ps)|;
    var s := Spelling(ps);
    assert t[j..a] == s[..|Marker|];
    assert t[a..a + n + 1] == s[|Marker|..];
    StepsDeterministic();
    MatchStepsComplete(t, a, Steps, ps);
  }

  /** The pattern matches at `j` with the split `ps` exactly when the greedy
      matcher reports that split there. */
  lemma MatchAtIff(t: seq<byte>, j: nat, ps: seq<seq<byte>>)
    ensures MatchesAt(t, j, ps) <==> MatchAt(t, j) == Some(ps)
  {
    if MatchAt(t, j).Some? {
      MatchAtSound(t, j);
    }
    if MatchesAt(t, j, ps) {
      MatchAtComplete(t, j, ps);
    }
  }

  /** `exec` fails exactly when the pattern matches nowhere in the text. */
  lemma SearchNoneIffNoMatch(t: seq<byte>)
    ensures Search(t).None? <==> !MatchesSomewhere(t)
  {
    var at := j => MatchAt(t, j);
    if MatchesSomewhere(t) {
      var j: nat, ps :| MatchesAt(t, j, ps);
      MatchAtComplete(t, j, ps);
      assert at(j).Some?;
    }
    if Search(t).Some? {
      var m := Search(t).value;
      assert MatchesAt(t, m.start, m.pieces);
    }
  }

  /** On success `exec` reports a match, and nothing to its left matches. */
  lemma SearchFindsLeftmost(t: seq<byte>)
    requires Search(t).Some?
    ensures var m := Search(t).value;
            && MatchesAt(t, m.start, m.pieces)
            && forall j: nat, ps :: j < m.start ==> !MatchesAt(t, j, ps)
  {
    var at := j => MatchAt(t, j);
    var m := Search(t).value;
    assert Leftmost(at, 0, |t|) == Some((m.start, m.pieces));
    forall j: nat, ps | j < m.start
      ensures !MatchesAt(t, j, ps)
    {
      assert at(j).None?;
      MatchAtIff(t, j, ps);
    }
  }

  // ---------------------------------------------------------------------
  // The shape of a match

  /** Between the marker and `]` a match holds only digits and spaces. */
  lemma {:induction false} FlattenInClasses(ps: seq<seq<byte>>, steps: seq<Repeat>)
    requires Fits(ps, steps)
    ensures AllDigitsOrSpaces(Flatten(ps))
    decreases |ps|
  {
    if |ps| > 0 {
      FitsTail(ps, steps);
      FlattenInClasses(ps[1..], steps[1..]);
      var f := Flatten(ps);
      forall k | 0 <= k < |f|
        ensures IsDigit(f[k]) || IsSpace(f[k])
      {
        if k < |ps[0]| {
          assert f[k] == ps[0][k];
          assert InClass(ps[0][k], steps[0].cls);
        } else {
          assert f[k] == Flatten(ps[1..])[k - |ps[0]|];
        }
      }
    }
  }

  predicate AllDigitsOrSpaces(s: seq<byte>) {
    forall k :: 0 <= k < |s| ==> IsDigit(s[k]) || IsSpace(s[k])
  }

  /** A match starts with its only `/` and ends with its only `]`. */
  lemma SpellingShape(ps: seq<seq<byte>>)
    requires Fits(ps, Steps)
    ensures var sp := Spelling(ps);
            && |sp| >= |Marker| + 1
            && sp[0] == Slash
            && sp[|sp| - 1] == CloseBracket
            && forall k :: 0 < k < |sp| - 1 ==> sp[k] != Slash && sp[k] != CloseBracket
  {
    var sp := Spelling(ps);
    var f := Flatten(ps);
    FlattenInClasses(ps, Steps);
    forall k | 0 < k < |sp| - 1
      ensures sp[k] != Slash && sp[k] != CloseBracket
    {
      if k < |Marker| {
        assert sp[k] == Marker[k];
      } else {
        assert sp[k] == f[k - |Marker|];
      }
    }
  }

  /** The bytes of a match, read from the text. */
  lemma MatchedBytes(t: seq<byte>, j: nat, ps: seq<seq<byte>>)
    requires MatchesAt(t, j, ps)
    ensures forall k :: j <= k < j + |Spelling(ps)| ==> t[k] == Spelling(ps)[k - j]
  {
    var sp := Spelling(ps);
    forall k | j <= k < j + |sp|
      ensures t[k] == sp[k - j]
    {
      assert t[j..j + |sp|][k - j] == t[k];
    }
  }

  /** Of two matches that both end with the text, the second cannot start
      strictly inside the first, whose only `/` is its first byte. */
  lemma StartNotInside(t: seq<byte>, j1: nat, ps1: seq<seq<byte>>, j2: nat, ps2: seq<seq<byte>>)
    requires MatchesAt(t, j1, ps1) && MatchesAt(t, j2, ps2)
    requires j1 + |Spelling(ps1)| == |t| && j2 + |Spelling(ps2)| == |t|
    ensures j1 <= j2
  {
    SpellingShape(ps1);
    SpellingShape(ps2);
    MatchedBytes(t, j1, ps1);
    MatchedBytes(t, j2, ps2);
    assert t[j2] == Slash;
  }

  /** In a text whose only `]` is its last byte, such as the slice of the
      document from the marker to the first `]` after it, the pattern matches
      at one offset at most, and with one split only. */
  lemma MatchUniqueBeforeFirstClose(t: seq<byte>, j1: nat, ps1: seq<seq<byte>>, j2: nat, ps2: seq<seq<byte>>)
    requires |t| > 0 && forall k :: 0 <= k < |t| - 1 ==> t[k] != CloseBracket
    requires MatchesAt(t, j1, ps1) && MatchesAt(t, j2, ps2)
    ensures j1 == j2 && ps1 == ps2
  {
    var sp1 := Spelling(ps1);
    var sp2 := Spelling(ps2);
    SpellingShape(ps1);
    SpellingShape(ps2);
    assert t[j1 + |sp1| - 1] == sp1[|sp1| - 1];
    assert t[j2 + |sp2| - 1] == sp2[|sp2| - 1];
    StartNotInside(t, j1, ps1, j2, ps2);
    StartNotInside(t, j2, ps2, j1, ps1);
    MatchAtComplete(t, j1, ps1);
    MatchAtComplete(t, j2, ps2);
  }

}
