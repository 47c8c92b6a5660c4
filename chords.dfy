/**
 * The chord matcher of the highlighter: the pattern built from the configured
 * chord marker (opening marker, a chord body, the marker reversed), the order in
 * which a backtracking regular-expression engine tries the bodies, the leftmost
 * search that `exec` performs, and the split of one text leaf into plain-text and
 * chord segments.
 *
 * Matching here is literal: the functions take the markers as plain strings. The
 * source interpolates the marker into a regular expression unescaped, so the two
 * agree when the marker holds no regular-expression metacharacter
 * (`IsLiteralMarker`); the methods that build the matcher require that.
 */
module Chords {

  import opened Strings

  datatype Option<T> = None | Some(value: T)

  // ---------------------------------------------------------------------------
  // Markers
  // ---------------------------------------------------------------------------

  /** The closing delimiter is the chord marker reversed character by character. */
  function Reverse(s: string): (r: string)
    ensures |r| == |s|
  {
    if s == [] then [] else Reverse(s[1..]) + [s[0]]
  }

  lemma {:induction false} ReverseAt(s: string, k: nat)
    requires k < |s|
    ensures Reverse(s)[k] == s[|s| - 1 - k]
  {
    if k < |s| - 1 {
      ReverseAt(s[1..], k);
    }
  }

  /** Reversing the closing delimiter gives the marker back. */
  lemma ReverseInvolutive(s: string)
    ensures Reverse(Reverse(s)) == s
  {
    forall k | 0 <= k < |s|
      ensures Reverse(Reverse(s))[k] == s[k]
    {
      ReverseAt(Reverse(s), k);
      ReverseAt(s, |s| - 1 - k);
    }
  }

  /** A palindromic marker (the default `[[` is one) closes with itself. */
  lemma PalindromeClosesWithItself(m: string)
    requires forall k :: 0 <= k < |m| ==> m[k] == m[|m| - 1 - k]
    ensures Reverse(m) == m
  {
    forall k | 0 <= k < |m|
      ensures Reverse(m)[k] == m[k]
    {
      ReverseAt(m, k);
    }
  }

  /** The characters with a meaning of their own in an ECMAScript pattern. */
  const RegexMetacharacters: string := "\\^$.|?*+()[]{}"

  /** A marker without metacharacters, which a regular expression reads as the literal text it is. */
  predicate IsLiteralMarker(m: string)
  {
    forall k :: 0 <= k < |m| ==> m[k] !in RegexMetacharacters
  }

  /** The closing delimiter of a literal marker is literal too. */
  lemma ReverseKeepsLiteral(m: string)
    requires IsLiteralMarker(m)
    ensures IsLiteralMarker(Reverse(m))
  {
    forall k | 0 <= k < |m|
      ensures Reverse(m)[k] !in RegexMetacharacters
    {
      ReverseAt(m, k);
    }
  }

  // ---------------------------------------------------------------------------
  // The chord body: [A-G][#b]?(m|maj|min|dim|aug)?[0-9]?
  // ---------------------------------------------------------------------------

  predicate IsRoot(c: char) { 'A' <= c <= 'G' }

  predicate IsAccidental(c: char) { c == '#' || c == 'b' }

  predicate IsDigit(c: char) { '0' <= c <= '9' }

  /** The quality alternatives, in the order the pattern lists them. */
  const Qualities: seq<string> := ["m", "maj", "min", "dim", "aug"]

  /** `[0-9]?` */
  predicate IsDigitPart(s: string)
  {
    s == [] || (|s| == 1 && IsDigit(s[0]))
  }

  /** Quality number `i` followed by an optional digit. */
  predicate HasQuality(s: string, i: nat)
    requires i < |Qualities|
  {
    OccursAt(s, 0, Qualities[i]) && IsDigitPart(s[|Qualities[i]|..])
  }

  /** `(m|maj|min|dim|aug)?[0-9]?` */
  predicate IsQualityPart(s: string)
  {
    IsDigitPart(s) || exists i :: 0 <= i < |Qualities| && HasQuality(s, i)
  }

  /** `[#b]?(m|maj|min|dim|aug)?[0-9]?`: what may follow the root letter. */
  predicate IsAfterRoot(s: string)
  {
    IsQualityPart(s) || (|s| >= 1 && IsAccidental(s[0]) && IsQualityPart(s[1..]))
  }

  /** The language of the capture group: the chord shape, without markers. */
  predicate IsChordBody(b: string)
  {
    |b| >= 1 && IsRoot(b[0]) && IsAfterRoot(b[1..])
  }

  // ---------------------------------------------------------------------------
  // Backtracking over the body, in the order the regular-expression engine uses
  // ---------------------------------------------------------------------------

  /** The part of `open([A-G][#b]?(m|maj|min|dim|aug)?[0-9]?)close` still to match. */
  datatype Stage = OpenStage(open: string) | RootStage | AccidentalStage | QualityStage | DigitStage | CloseStage

  function Rank(stage: Stage): nat
  {
    match stage
    case OpenStage(_) => 5
    case RootStage => 4
    case AccidentalStage => 3
    case QualityStage => 2
    case DigitStage => 1
    case CloseStage => 0
  }

  /** The body text that the stages from `stage` on accept (the closing marker aside). */
  predicate StageAccepts(stage: Stage, s: string)
  {
    match stage
    case OpenStage(open) => OccursAt(s, 0, open) && IsChordBody(s[|open|..])
    case RootStage => IsChordBody(s)
    case AccidentalStage => IsAfterRoot(s)
    case QualityStage => IsQualityPart(s)
    case DigitStage => IsDigitPart(s)
    case CloseStage => s == []
  }

  function OrElse<T>(first: Option<T>, second: Option<T>): Option<T>
  {
    if first.Some? then first else second
  }

  /**
   * The engine at position `k` of `text` with the stages from `stage` on and then the
   * closing marker still to match: the end of the body along the first path that
   * lets the closing marker follow. A `?` part is tried present before absent, and
   * the quality alternatives in pattern order, each with the rest of the pattern
   * as its continuation.
   */
  function Backtrack(text: string, k: nat, stage: Stage, close: string): Option<nat>
    requires k <= |text|
    decreases Rank(stage), |Qualities| + 1
  {
    match stage
    case OpenStage(open) =>
      if OccursAt(text, k, open) then Backtrack(text, k + |open|, RootStage, close) else None
    case RootStage =>
      if k < |text| && IsRoot(text[k]) then Backtrack(text, k + 1, AccidentalStage, close) else None
    case AccidentalStage =>
      OrElse(
        if k < |text| && IsAccidental(text[k]) then Backtrack(text, k + 1, QualityStage, close) else None,
        Backtrack(text, k, QualityStage, close))
    case QualityStage =>
      TryQualities(text, k, 0, close)
    case DigitStage =>
      OrElse(
        if k < |text| && IsDigit(text[k]) then Backtrack(text, k + 1, CloseStage, close) else None,
        Backtrack(text, k, CloseStage, close))
    case CloseStage =>
      if OccursAt(text, k, close) then Some(k) else None
  }

  /** The quality alternatives from number `j` on, then the empty quality. */
  function TryQualities(text: string, k: nat, j: nat, close: string): Option<nat>
    requires k <= |text| && j <= |Qualities|
    decreases Rank(QualityStage), |Qualities| - j
  {
    if j == |Qualities| then Backtrack(text, k, DigitStage, close)
    else
      OrElse(
        if OccursAt(text, k, Qualities[j]) then Backtrack(text, k + |Qualities[j]|, DigitStage, close) else None,
        TryQualities(text, k, j + 1, close))
  }

  /** Where the `j`-th quality is present and the digit stage after it succeeds, that alternative is the one taken. */
  lemma QualityTaken(text: string, k: nat, j: nat, close: string)
    requires k <= |text| && j < |Qualities|
    requires OccursAt(text, k, Qualities[j]) && Backtrack(text, k + |Qualities[j]|, DigitStage, close).Some?
    ensures TryQualities(text, k, j, close) == Backtrack(text, k + |Qualities[j]|, DigitStage, close)
  {
  }

  /** Otherwise the alternatives after the `j`-th decide. */
  lemma QualitySkipped(text: string, k: nat, j: nat, close: string)
    requires k <= |text| && j < |Qualities|
    requires !(OccursAt(text, k, Qualities[j]) && Backtrack(text, k + |Qualities[j]|, DigitStage, close).Some?)
    ensures TryQualities(text, k, j, close) == TryQualities(text, k, j + 1, close)
  {
  }

  /** Where the engine succeeds, it ends inside the text, before the closing marker. */
  lemma {:induction false} BacktrackCloses(text: string, k: nat, stage: Stage, close: string)
    requires k <= |text|
    ensures Backtrack(text, k, stage, close).Some? ==>
              var e := Backtrack(text, k, stage, close).value;
              k <= e <= |text| && OccursAt(text, e, close)
    decreases Rank(stage), |Qualities| + 1
  {
    match stage
    case OpenStage(open) =>
      OpenStageCloses(text, k, open, close);
    case RootStage =>
      RootStageCloses(text, k, close);
    case AccidentalStage =>
      AccidentalStageCloses(text, k, close);
    case QualityStage =>
      TryQualitiesCloses(text, k, 0, close);
    case DigitStage =>
      DigitStageCloses(text, k, close);
    case CloseStage =>
  }

  lemma {:induction false} AccidentalStageCloses(text: string, k: nat, close: string)
    requires k <= |text|
    ensures Backtrack(text, k, AccidentalStage, close).Some? ==>
              var e := Backtrack(text, k, AccidentalStage, close).value;
              k <= e <= |text| && OccursAt(text, e, close)
    decreases Rank(AccidentalStage), 0
  {
    BacktrackCloses(text, k, QualityStage, close);
    if k < |text| && IsAccidental(text[k]) {
      BacktrackCloses(text, k + 1, QualityStage, close);
    }
  }

  lemma {:induction false} DigitStageCloses(text: string, k: nat, close: string)
    requires k <= |text|
    ensures Backtrack(text, k, DigitStage, close).Some? ==>
              var e := Backtrack(text, k, DigitStage, close).value;
              k <= e <= |text| && OccursAt(text, e, close)
    decreases Rank(DigitStage), 0
  {
    BacktrackCloses(text, k, CloseStage, close);
    if k < |text| && IsDigit(text[k]) {
      BacktrackCloses(text, k + 1, CloseStage, close);
    }
  }

  lemma {:induction false} TryQualitiesCloses(text: string, k: nat, j: nat, close: string)
    requires k <= |text| && j <= |Qualities|
    ensures TryQualities(text, k, j, close).Some? ==>
              var e := TryQualities(text, k, j, close).value;
              k <= e <= |text| && OccursAt(text, e, close)
    decreases Rank(QualityStage), |Qualities| - j
  {
    if j == |Qualities| {
      DigitStageCloses(text, k, close);
    } else if OccursAt(text, k, Qualities[j]) && Backtrack(text, k + |Qualities[j]|, DigitStage, close).Some? {
      QualityTaken(text, k, j, close);
      DigitStageCloses(text, k + |Qualities[j]|, close);
    } else {
      QualitySkipped(text, k, j, close);
      TryQualitiesCloses(text, k, j + 1, close);
    }
  }

  /** Where the engine succeeds, the text it passed over is what the stages accept. */
  lemma {:induction false} BacktrackSound(text: string, k: nat, stage: Stage, close: string)
    requires k <= |text|
    ensures Backtrack(text, k, stage, close).Some? ==>
              var e := Backtrack(text, k, stage, close).value;
              k <= e <= |text| && StageAccepts(stage, text[k..e])
    decreases Rank(stage), |Qualities| + 1
  {
    match stage
    case OpenStage(open) =>
      OpenStageSound(text, k, open, close);
    case RootStage =>
      RootStageSound(text, k, close);
    case AccidentalStage =>
      AccidentalStageSound(text, k, close);
    case QualityStage =>
      TryQualitiesSound(text, k, 0, close);
    case DigitStage =>
      BacktrackSound(text, k, CloseStage, close);
      if k < |text| && IsDigit(text[k]) {
        BacktrackSound(text, k + 1, CloseStage, close);
      }
    case CloseStage =>
  }

  lemma {:induction false} RootStageSound(text: string, k: nat, close: string)
    requires k <= |text|
    ensures Backtrack(text, k, RootStage, close).Some? ==>
              var e := Backtrack(text, k, RootStage, close).value;
              k <= e <= |text| && IsChordBody(text[k..e])
    decreases Rank(RootStage), 0
  {
    var r := Backtrack(text, k, RootStage, close);
    if k < |text| && IsRoot(text[k]) {
      BacktrackSound(text, k + 1, AccidentalStage, close);
      if r.Some? {
        assert text[k..r.value][1..] == text[k + 1..r.value];
      }
    }
  }

  lemma {:induction false} AccidentalStageSound(text: string, k: nat, close: string)
    requires k <= |text|
    ensures Backtrack(text, k, AccidentalStage, close).Some? ==>
              var e := Backtrack(text, k, AccidentalStage, close).value;
              k <= e <= |text| && IsAfterRoot(text[k..e])
    decreases Rank(AccidentalStage), 0
  {
    BacktrackSound(text, k, QualityStage, close);
    if k < |text| && IsAccidental(text[k]) {
      BacktrackSound(text, k + 1, QualityStage, close);
      var first := Backtrack(text, k + 1, QualityStage, close);
      if first.Some? {
        assert text[k..first.value][1..] == text[k + 1..first.value];
      }
    }
  }

  lemma {:induction false} TryQualitiesSound(text: string, k: nat, j: nat, close: string)
    requires k <= |text| && j <= |Qualities|
    ensures TryQualities(text, k, j, close).Some? ==>
              var e := TryQualities(text, k, j, close).value;
              k <= e <= |text| && IsQualityPart(text[k..e])
    decreases Rank(QualityStage), |Qualities| - j
  {
    if j == |Qualities| {
      BacktrackSound(text, k, DigitStage, close);
    } else {
      TryQualitiesSound(text, k, j + 1, close);
      QualityAlternativeSound(text, k, j, close);
    }
  }

  /** The alternative for quality number `j`, when it is the one taken, accepts a quality part. */
  lemma {:induction false} QualityAlternativeSound(text: string, k: nat, j: nat, close: string)
    requires k <= |text| && j < |Qualities|
    ensures var q := Qualities[j];
            OccursAt(text, k, q) && Backtrack(text, k + |q|, DigitStage, close).Some? ==>
              var e := Backtrack(text, k + |q|, DigitStage, close).value;
              k <= e <= |text| && IsQualityPart(text[k..e])
    decreases Rank(QualityStage), |Qualities| - j, 0
  {
    var q := Qualities[j];
    if OccursAt(text, k, q) {
      BacktrackSound(text, k + |q|, DigitStage, close);
      var first := Backtrack(text, k + |q|, DigitStage, close);
      if first.Some? {
        QualityThenDigit(text, k, j, first.value);
      }
    }
  }

  lemma QualityThenDigit(text: string, k: nat, j: nat, e: nat)
    requires j < |Qualities| && OccursAt(text, k, Qualities[j])
    requires k + |Qualities[j]| <= e <= |text| && IsDigitPart(text[k + |Qualities[j]|..e])
    ensures HasQuality(text[k..e], j) && IsQualityPart(text[k..e])
  {
    var q := Qualities[j];
    var s := text[k..e];
    assert s[0..|q|] == text[k..k + |q|];
    assert s[|q|..] == text[k + |q|..e];
    assert HasQuality(s, j);
  }

  lemma {:induction false} OpenStageSound(text: string, k: nat, open: string, close: string)
    requires k <= |text|
    ensures Backtrack(text, k, OpenStage(open), close).Some? ==>
              var e := Backtrack(text, k, OpenStage(open), close).value;
              k <= e <= |text| && StageAccepts(OpenStage(open), text[k..e])
    decreases Rank(OpenStage(open)), 0
  {
    if OccursAt(text, k, open) {
      BacktrackSound(text, k + |open|, RootStage, close);
      var r := Backtrack(text, k, OpenStage(open), close);
      if r.Some? {
        var s := text[k..r.value];
        assert s[0..|open|] == text[k..k + |open|];
        assert s[|open|..] == text[k + |open|..r.value];
      }
    }
  }

  /** Wherever some accepted text followed by the closing marker starts at `k`, the engine succeeds. */
  lemma {:induction false} BacktrackComplete(text: string, k: nat, stage: Stage, close: string, e: nat)
    requires k <= e <= |text| && StageAccepts(stage, text[k..e]) && OccursAt(text, e, close)
    ensures Backtrack(text, k, stage, close).Some?
    decreases Rank(stage), |Qualities| + 1
  {
    match stage
    case OpenStage(open) =>
      OpenStageComplete(text, k, open, close, e);
    case RootStage =>
      RootStageComplete(text, k, close, e);
    case AccidentalStage =>
      AccidentalStageComplete(text, k, close, e);
    case QualityStage =>
      TryQualitiesComplete(text, k, 0, close, e);
    case DigitStage =>
      if k == e {
        BacktrackComplete(text, k, CloseStage, close, e);
      } else {
        BacktrackComplete(text, k + 1, CloseStage, close, e);
      }
    case CloseStage =>
  }

  lemma {:induction false} RootStageComplete(text: string, k: nat, close: string, e: nat)
    requires k <= e <= |text| && IsChordBody(text[k..e]) && OccursAt(text, e, close)
    ensures Backtrack(text, k, RootStage, close).Some?
    decreases Rank(RootStage), 0
  {
    assert text[k..e][1..] == text[k + 1..e];
    BacktrackComplete(text, k + 1, AccidentalStage, close, e);
  }

  lemma {:induction false} AccidentalStageComplete(text: string, k: nat, close: string, e: nat)
    requires k <= e <= |text| && IsAfterRoot(text[k..e]) && OccursAt(text, e, close)
    ensures Backtrack(text, k, AccidentalStage, close).Some?
    decreases Rank(AccidentalStage), 0
  {
    var s := text[k..e];
    if IsQualityPart(s) {
      BacktrackComplete(text, k, QualityStage, close, e);
    } else {
      assert s[1..] == text[k + 1..e];
      BacktrackComplete(text, k + 1, QualityStage, close, e);
    }
  }

  lemma {:induction false} TryQualitiesComplete(text: string, k: nat, j: nat, close: string, e: nat)
    requires k <= e <= |text| && j <= |Qualities| && OccursAt(text, e, close)
    requires IsDigitPart(text[k..e]) || exists i :: j <= i < |Qualities| && HasQuality(text[k..e], i)
    ensures TryQualities(text, k, j, close).Some?
    decreases Rank(QualityStage), |Qualities| - j
  {
    if j == |Qualities| {
      BacktrackComplete(text, k, DigitStage, close, e);
    } else if HasQuality(text[k..e], j) {
      QualityAlternativeComplete(text, k, j, close, e);
    } else {
      TryQualitiesComplete(text, k, j + 1, close, e);
    }
  }

  /** Quality number `j` followed by an optional digit and the closing marker: its alternative succeeds. */
  lemma {:induction false} QualityAlternativeComplete(text: string, k: nat, j: nat, close: string, e: nat)
    requires k <= e <= |text| && j < |Qualities| && OccursAt(text, e, close)
    requires HasQuality(text[k..e], j)
    ensures OccursAt(text, k, Qualities[j]) && Backtrack(text, k + |Qualities[j]|, DigitStage, close).Some?
    decreases Rank(QualityStage), |Qualities| - j, 0
  {
    var s := text[k..e];
    var q := Qualities[j];
    assert s[0..|q|] == text[k..k + |q|];
    assert s[|q|..] == text[k + |q|..e];
    BacktrackComplete(text, k + |q|, DigitStage, close, e);
  }

  lemma {:induction false} OpenStageCloses(text: string, k: nat, open: string, close: string)
    requires k <= |text|
    ensures Backtrack(text, k, OpenStage(open), close).Some? ==>
              var e := Backtrack(text, k, OpenStage(open), close).value;
              OccursAt(text, k, open) && k + |open| < e <= |text| && OccursAt(text, e, close)
    decreases Rank(OpenStage(open)), 0
  {
    var r := Backtrack(text, k, OpenStage(open), close);
    if OccursAt(text, k, open) {
      assert r == Backtrack(text, k + |open|, RootStage, close);
      RootStageCloses(text, k + |open|, close);
    } else {
      assert r.None?;
    }
  }

  /** After the root letter the body goes on, so the closing marker starts past it. */
  lemma {:induction false} RootStageCloses(text: string, q: nat, close: string)
    requires q <= |text|
    ensures Backtrack(text, q, RootStage, close).Some? ==>
              var e := Backtrack(text, q, RootStage, close).value;
              q < e <= |text| && OccursAt(text, e, close)
    decreases Rank(RootStage), 0
  {
    if q < |text| && IsRoot(text[q]) {
      BacktrackCloses(text, q + 1, AccidentalStage, close);
    }
  }

  lemma {:induction false} OpenStageComplete(text: string, k: nat, open: string, close: string, e: nat)
    requires k <= e <= |text| && StageAccepts(OpenStage(open), text[k..e]) && OccursAt(text, e, close)
    ensures Backtrack(text, k, OpenStage(open), close).Some?
    decreases Rank(OpenStage(open)), 0
  {
    var s := text[k..e];
    assert s[0..|open|] == text[k..k + |open|];
    assert s[|open|..] == text[k + |open|..e];
    BacktrackComplete(text, k + |open|, RootStage, close, e);
  }

  // ---------------------------------------------------------------------------
  // One anchored match, and the leftmost search
  // ---------------------------------------------------------------------------

  /**
   * The body that `open (body) close` captures when anchored at position `p` of
   * `text`, or None when the pattern does not match there.
   */
  function MatchAt(text: string, p: nat, open: string, close: string): Option<string>
    requires p <= |text|
  {
    match Backtrack(text, p, OpenStage(open), close)
    case None => None
    case Some(e) => if p + |open| <= e <= |text| then Some(text[p + |open|..e]) else None
  }

  /** A match is a non-empty body that the two markers enclose in the text. */
  lemma MatchAtEncloses(text: string, p: nat, open: string, close: string)
    requires p <= |text|
    ensures MatchAt(text, p, open, close).Some? ==>
              var b := MatchAt(text, p, open, close).value;
              |b| >= 1 && OccursAt(text, p, open + b + close)
  {
    OpenStageCloses(text, p, open, close);
    var r := Backtrack(text, p, OpenStage(open), close);
    if r.Some? {
      var q := p + |open|;
      var b := text[q..r.value];
      assert MatchAt(text, p, open, close) == Some(b);
      assert OccursAt(text, q, b);
      OccursAtConcat(text, q, b, close);
      OccursAtConcat(text, p, open, b + close);
      assert open + (b + close) == open + b + close;
    }
  }

  /** What the pattern captures is a chord body. */
  lemma MatchAtSound(text: string, p: nat, open: string, close: string)
    requires p <= |text|
    ensures MatchAt(text, p, open, close).Some? ==> IsChordBody(MatchAt(text, p, open, close).value)
  {
    BacktrackSound(text, p, OpenStage(open), close);
  }

  /** Whenever some chord body sits between the markers at `p`, the pattern matches there. */
  lemma MatchAtComplete(text: string, p: nat, open: string, close: string, b: string)
    requires p <= |text|
    requires IsChordBody(b) && OccursAt(text, p, open + b + close)
    ensures MatchAt(text, p, open, close).Some?
  {
    var q := p + |open|;
    var e := q + |b|;
    assert open + b + close == open + (b + close);
    OccursAtConcat(text, p, open, b + close);
    OccursAtConcat(text, q, b, close);
    assert StageAccepts(OpenStage(open), text[p..e]) by {
      var s := text[p..e];
      assert s[0..|open|] == text[p..q];
      assert s[|open|..] == text[q..e];
    }
    OpenStageComplete(text, p, open, close, e);
    OpenStageCloses(text, p, open, close);
  }

  // ---------------------------------------------------------------------------
  // Which body the engine captures when several fit
  // ---------------------------------------------------------------------------

  /**
   * The choices a body makes at the optional parts of the pattern: whether it has an
   * accidental, which quality it has (`|Qualities|` for none) and whether it ends in
   * a digit.
   */
  datatype Shape = Shape(accidental: bool, quality: nat, digit: bool)

  /**
   * The engine tries `x` before `y`: an accidental before none; then the qualities in
   * pattern order, no quality last; then a digit before none.
   */
  predicate Precedes(x: Shape, y: Shape)
  {
    (x.accidental && !y.accidental) ||
    (x.accidental == y.accidental &&
      (x.quality < y.quality || (x.quality == y.quality && x.digit && !y.digit)))
  }

  /** The first quality from number `j` on that starts `s`, or `|Qualities|`. */
  function QualityIndexFrom(s: string, j: nat): (i: nat)
    requires j <= |Qualities|
    ensures j <= i <= |Qualities|
    ensures i < |Qualities| ==> HasQuality(s, i)
    ensures forall i' :: j <= i' < i ==> !HasQuality(s, i')
    decreases |Qualities| - j
  {
    if j == |Qualities| then j
    else if HasQuality(s, j) then j
    else QualityIndexFrom(s, j + 1)
  }

  function QualityIndex(s: string): nat
  {
    QualityIndexFrom(s, 0)
  }

  predicate HasDigit(s: string)
  {
    |s| >= 1 && IsDigit(s[|s| - 1])
  }

  /** The shape of a quality part `(m|maj|min|dim|aug)?[0-9]?`. */
  function QualityShape(s: string): Shape
  {
    Shape(false, QualityIndex(s), HasDigit(s))
  }

  /** The shape of what follows the root letter, `[#b]?(m|maj|min|dim|aug)?[0-9]?`. */
  function AfterRootShape(s: string): Shape
  {
    if |s| >= 1 && IsAccidental(s[0]) then Shape(true, QualityIndex(s[1..]), HasDigit(s[1..]))
    else QualityShape(s)
  }

  /** The shape of a chord body. */
  function ShapeOf(b: string): Shape
  {
    if b == [] then Shape(false, |Qualities|, false) else AfterRootShape(b[1..])
  }

  /** No quality is a prefix of another one followed by a digit part, so a quality part has one quality. */
  lemma QualityUnique(s: string, i: nat, j: nat)
    requires i < |Qualities| && j < |Qualities| && HasQuality(s, i) && HasQuality(s, j)
    ensures i == j
  {
    var qi, qj := Qualities[i], Qualities[j];
    assert s[..|qi|] == qi && s[..|qj|] == qj;
    if |qi| < |qj| {
      assert IsDigitPart(s[|qi|..]);
    } else if |qj| < |qi| {
      assert IsDigitPart(s[|qj|..]);
    }
  }

  lemma QualityIndexOf(s: string, i: nat)
    requires i < |Qualities| && HasQuality(s, i)
    ensures QualityIndex(s) == i
  {
    var r := QualityIndexFrom(s, 0);
    if r < |Qualities| {
      QualityUnique(s, r, i);
    }
  }

  /** A quality part without a quality is a digit part, and a digit part has no quality. */
  lemma NoQualityIsDigitPart(s: string)
    requires IsQualityPart(s)
    ensures QualityIndex(s) == |Qualities| <==> IsDigitPart(s)
  {
    if IsDigitPart(s) {
      var r := QualityIndexFrom(s, 0);
      if r < |Qualities| {
        assert false;
      }
    } else {
      var i :| 0 <= i < |Qualities| && HasQuality(s, i);
      QualityIndexOf(s, i);
    }
  }

  /** A quality part never starts with an accidental. */
  lemma QualityPartNoAccidental(s: string)
    requires IsQualityPart(s) && |s| >= 1
    ensures !IsAccidental(s[0])
  {
    if !IsDigitPart(s) {
      var i :| 0 <= i < |Qualities| && HasQuality(s, i);
      assert s[0] == Qualities[i][0];
    }
  }

  /** The digit stage takes the digit whenever the closing marker may follow it. */
  lemma DigitStageFirst(text: string, k: nat, close: string, e': nat)
    requires k <= e' <= |text| && IsDigitPart(text[k..e']) && OccursAt(text, e', close)
    ensures Backtrack(text, k, DigitStage, close).Some?
    ensures var e := Backtrack(text, k, DigitStage, close).value;
            e' <= e <= |text| && IsDigitPart(text[k..e])
  {
    BacktrackSound(text, k, DigitStage, close);
    if e' > k {
      assert text[k..e'][0] == text[k];
    }
  }

  /**
   * The quality stage from `k` succeeds with `r`, and the quality part from `k` to
   * `e'` does not come before the one it takes.
   */
  predicate QualityNoWorse(text: string, k: nat, e': nat, r: Option<nat>)
    requires k <= e' <= |text|
  {
    r.Some? && k <= r.value <= |text| && IsQualityPart(text[k..r.value]) &&
    !Precedes(QualityShape(text[k..e']), QualityShape(text[k..r.value]))
  }

  /**
   * The quality alternatives from number `j` on capture a quality part that no other
   * quality part from `k` precedes, among those with a quality from `j` on (or none)
   * after which the closing marker may follow.
   */
  lemma {:induction false} TryQualitiesFirst(text: string, k: nat, j: nat, close: string, e': nat)
    requires k <= e' <= |text| && j <= |Qualities| && OccursAt(text, e', close)
    requires IsQualityPart(text[k..e']) && j <= QualityIndex(text[k..e'])
    ensures QualityNoWorse(text, k, e', TryQualities(text, k, j, close))
    decreases |Qualities| - j
  {
    if j == |Qualities| {
      assert TryQualities(text, k, j, close) == Backtrack(text, k, DigitStage, close);
      NoQualityFirst(text, k, close, e');
    } else {
      var q := Qualities[j];
      if OccursAt(text, k, q) && Backtrack(text, k + |q|, DigitStage, close).Some? {
        QualityTaken(text, k, j, close);
        QualityAlternativeFirst(text, k, j, close, e');
      } else {
        if QualityIndex(text[k..e']) == j {
          QualityAlternativeComplete(text, k, j, close, e');
          assert false;
        } else {
          QualitySkipped(text, k, j, close);
          TryQualitiesFirst(text, k, j + 1, close, e');
        }
      }
    }
  }

  /** Without a quality, the digit stage decides, and it prefers the digit. */
  lemma NoQualityFirst(text: string, k: nat, close: string, e': nat)
    requires k <= e' <= |text| && OccursAt(text, e', close)
    requires IsQualityPart(text[k..e']) && QualityIndex(text[k..e']) == |Qualities|
    ensures QualityNoWorse(text, k, e', Backtrack(text, k, DigitStage, close))
  {
    var s' := text[k..e'];
    NoQualityIsDigitPart(s');
    DigitStageFirst(text, k, close, e');
    var e := Backtrack(text, k, DigitStage, close).value;
    NoQualityIsDigitPart(text[k..e]);
    if HasDigit(s') {
      assert e == k + 1 && text[k..e][0] == s'[0];
    }
  }

  /** When quality number `j` is followed by what the digit stage accepts, it is the one captured. */
  lemma QualityAlternativeFirst(text: string, k: nat, j: nat, close: string, e': nat)
    requires k <= e' <= |text| && j < |Qualities| && OccursAt(text, e', close)
    requires IsQualityPart(text[k..e']) && j <= QualityIndex(text[k..e'])
    requires OccursAt(text, k, Qualities[j]) && Backtrack(text, k + |Qualities[j]|, DigitStage, close).Some?
    ensures QualityNoWorse(text, k, e', Backtrack(text, k + |Qualities[j]|, DigitStage, close))
  {
    var q := Qualities[j];
    BacktrackSound(text, k + |q|, DigitStage, close);
    AlternativeNoWorse(text, k, j, close, e', Backtrack(text, k + |q|, DigitStage, close).value);
  }

  /** The part taken with quality number `j`, ending at `e`, against the part ending at `e'`. */
  lemma AlternativeNoWorse(text: string, k: nat, j: nat, close: string, e': nat, e: nat)
    requires k <= e' <= |text| && j < |Qualities| && OccursAt(text, e', close)
    requires IsQualityPart(text[k..e']) && j <= QualityIndex(text[k..e'])
    requires OccursAt(text, k, Qualities[j]) && Backtrack(text, k + |Qualities[j]|, DigitStage, close) == Some(e)
    requires k + |Qualities[j]| <= e <= |text| && IsDigitPart(text[k + |Qualities[j]|..e])
    ensures IsQualityPart(text[k..e]) && !Precedes(QualityShape(text[k..e']), QualityShape(text[k..e]))
  {
    QualityThenDigit(text, k, j, e);
    QualityIndexOf(text[k..e], j);
    if QualityIndex(text[k..e']) == j {
      SameQualityFirst(text, k, j, close, e', e);
    }
  }

  /** Two parts with the same quality: the digit stage's preference decides between them. */
  lemma SameQualityFirst(text: string, k: nat, j: nat, close: string, e': nat, e: nat)
    requires k <= e' <= |text| && j < |Qualities| && OccursAt(text, e', close)
    requires HasQuality(text[k..e'], j) && OccursAt(text, k, Qualities[j])
    requires Backtrack(text, k + |Qualities[j]|, DigitStage, close) == Some(e)
    requires k + |Qualities[j]| <= e <= |text| && IsDigitPart(text[k + |Qualities[j]|..e])
    ensures HasDigit(text[k..e']) ==> HasDigit(text[k..e])
  {
    var q := Qualities[j];
    assert text[k..e'][|q|..] == text[k + |q|..e'];
    DigitStageFirst(text, k + |q|, close, e');
    DigitAfterQuality(text, k, j, e');
    DigitAfterQuality(text, k, j, e);
  }

  /** A quality part ends in a digit exactly when one follows the quality: no quality ends in one. */
  lemma DigitAfterQuality(text: string, k: nat, j: nat, e: nat)
    requires j < |Qualities| && OccursAt(text, k, Qualities[j])
    requires k + |Qualities[j]| <= e <= |text| && IsDigitPart(text[k + |Qualities[j]|..e])
    ensures HasDigit(text[k..e]) <==> e == k + |Qualities[j]| + 1
  {
    var q := Qualities[j];
    if e == k + |q| {
      assert text[k..e][|text[k..e]| - 1] == q[|q| - 1];
    } else {
      assert text[k..e][|text[k..e]| - 1] == text[k + |q|..e][0];
    }
  }

  /**
   * After the root letter, the engine captures a part that no other part from `k`,
   * followed by the closing marker, precedes.
   */
  lemma AccidentalStageFirst(text: string, k: nat, close: string, e': nat, e: nat)
    requires k <= e' <= |text| && IsAfterRoot(text[k..e']) && OccursAt(text, e', close)
    requires Backtrack(text, k, AccidentalStage, close) == Some(e)
    ensures k <= e <= |text| && !Precedes(AfterRootShape(text[k..e']), AfterRootShape(text[k..e]))
  {
    var s' := text[k..e'];
    AccidentalStageSound(text, k, close);
    if |s'| >= 1 && IsAccidental(s'[0]) {
      if IsQualityPart(s') {
        QualityPartNoAccidental(s');
      }
      assert s'[1..] == text[k + 1..e'] && text[k] == s'[0];
      TryQualitiesFirst(text, k + 1, 0, close, e');
      assert text[k..e][1..] == text[k + 1..e];
    } else if k < |text| && IsAccidental(text[k]) && TryQualities(text, k + 1, 0, close).Some? {
      TryQualitiesSound(text, k + 1, 0, close);
      assert text[k..e][0] == text[k];
    } else {
      TryQualitiesFirst(text, k, 0, close, e');
      if |text[k..e]| >= 1 {
        QualityPartNoAccidental(text[k..e]);
      }
    }
  }

  /**
   * The pattern captures the first body the engine tries: no chord body that
   * precedes the captured one `b` sits between the two markers at `p`.
   */
  lemma MatchAtFirst(text: string, p: nat, open: string, close: string, b: string, b': string)
    requires p <= |text| && MatchAt(text, p, open, close) == Some(b)
    requires IsChordBody(b') && OccursAt(text, p, open + b' + close)
    ensures !Precedes(ShapeOf(b'), ShapeOf(b))
  {
    var k, e, e' := p + |open| + 1, p + |open| + |b|, p + |open| + |b'|;
    BodyBetweenMarkers(text, p, open, close, b', k, e');
    CapturedAfterRoot(text, p, open, close, b, k, e);
    AccidentalStageFirst(text, k, close, e', e);
  }

  /** A body between the markers at `p`: its root before `k`, the rest from `k` to `e'`, then the closing marker. */
  lemma BodyBetweenMarkers(text: string, p: nat, open: string, close: string, b': string, k: nat, e': nat)
    requires p <= |text| && IsChordBody(b') && OccursAt(text, p, open + b' + close)
    requires k == p + |open| + 1 && e' == p + |open| + |b'|
    ensures k <= e' <= |text| && IsAfterRoot(text[k..e']) && OccursAt(text, e', close)
    ensures ShapeOf(b') == AfterRootShape(text[k..e'])
  {
    var q := p + |open|;
    assert open + b' + close == open + (b' + close);
    OccursAtConcat(text, p, open, b' + close);
    OccursAtConcat(text, q, b', close);
    assert text[k..e'] == text[q..q + |b'|][1..];
  }

  /** The captured body is the root letter before `k` followed by what the engine takes from `k` to `e`. */
  lemma CapturedAfterRoot(text: string, p: nat, open: string, close: string, b: string, k: nat, e: nat)
    requires p <= |text| && MatchAt(text, p, open, close) == Some(b)
    requires k == p + |open| + 1 && e == p + |open| + |b|
    ensures k <= e <= |text| && Backtrack(text, k, AccidentalStage, close) == Some(e)
    ensures ShapeOf(b) == AfterRootShape(text[k..e])
  {
    var q := p + |open|;
    OpenStageCloses(text, p, open, close);
    var end := Backtrack(text, p, OpenStage(open), close).value;
    assert b == text[q..end];
    assert Backtrack(text, p, OpenStage(open), close) == Backtrack(text, q, RootStage, close);
    assert Backtrack(text, q, RootStage, close) == Backtrack(text, k, AccidentalStage, close);
    assert b[1..] == text[k..end];
  }

  /** A match of the pattern: where it starts and the captured body. */
  datatype Match = Match(start: nat, body: string)

  /** The position just past a match, where the next search resumes. */
  function MatchEnd(m: Match, open: string, close: string): nat
  {
    m.start + |open| + |m.body| + |close|
  }

  /**
   * `exec` of the global pattern with its `lastIndex` at `from`: the leftmost
   * position at or after `from` where the pattern matches.
   */
  function Exec(text: string, from: nat, open: string, close: string): (r: Option<Match>)
    requires from <= |text|
    ensures r.Some? ==>
              from <= r.value.start <= |text| &&
              MatchAt(text, r.value.start, open, close) == Some(r.value.body) &&
              r.value.start < MatchEnd(r.value, open, close) <= |text|
    ensures r.Some? ==> forall p :: from <= p < r.value.start ==> MatchAt(text, p, open, close).None?
    ensures r.None? ==> forall p :: from <= p <= |text| ==> MatchAt(text, p, open, close).None?
    decreases |text| - from
  {
    MatchAtEncloses(text, from, open, close);
    match MatchAt(text, from, open, close)
    case Some(b) => Some(Match(from, b))
    case None => if from == |text| then None else Exec(text, from + 1, open, close)
  }

  /** A search from `from` finds the first position where the pattern matches. */
  lemma ExecFinds(text: string, from: nat, q: nat, open: string, close: string)
    requires from <= q <= |text|
    requires forall p :: from <= p < q ==> MatchAt(text, p, open, close).None?
    requires MatchAt(text, q, open, close).Some?
    ensures Exec(text, from, open, close) == Some(Match(q, MatchAt(text, q, open, close).value))
  {
    var r := Exec(text, from, open, close);
    assert r.Some?;
    assert r.value.start == q;
  }

  /** A search from `from` finds nothing when the pattern matches nowhere from there on. */
  lemma ExecMisses(text: string, from: nat, open: string, close: string)
    requires from <= |text|
    requires forall p :: from <= p <= |text| ==> MatchAt(text, p, open, close).None?
    ensures Exec(text, from, open, close).None?
  {
  }

  // ---------------------------------------------------------------------------
  // Splitting one text leaf
  // ---------------------------------------------------------------------------

  /** What the rewriter emits for a leaf: a plain text node or a chord span. */
  datatype Segment = Plain(text: string) | Chord(body: string)

  /**
   * The segments the scan loop emits for `text` from `from` on: for each match
   * the gap before it (only when not empty) and the chord, then the tail (only
   * when not empty).
   */
  function Scan(text: string, from: nat, open: string, close: string): seq<Segment>
    requires from <= |text|
    decreases |text| - from
  {
    match Exec(text, from, open, close)
    case None => if from < |text| then [Plain(text[from..])] else []
    case Some(m) =>
      (if from < m.start then [Plain(text[from..m.start])] else [])
      + [Chord(m.body)]
      + Scan(text, MatchEnd(m, open, close), open, close)
  }

  /** A chord segment written back with its markers, a plain one as it is. */
  function Written(seg: Segment, open: string, close: string): string
  {
    match seg
    case Plain(s) => s
    case Chord(b) => open + b + close
  }

  function Rebuild(segs: seq<Segment>, open: string, close: string): string
  {
    if segs == [] then [] else Written(segs[0], open, close) + Rebuild(segs[1..], open, close)
  }

  /**
   * An independent description of a correct split of `text[pos..]`: the segments
   * lie end to end; a chord segment sits where the pattern matches and carries
   * the captured body; a plain segment is not empty, copies the text, holds no
   * position where the pattern matches, and is followed by a chord (or ends the
   * leaf).
   */
  predicate Tiles(text: string, pos: nat, segs: seq<Segment>, open: string, close: string)
    decreases |segs|
  {
    pos <= |text| &&
    if segs == [] then pos == |text|
    else
      match segs[0]
      case Plain(s) =>
        s != [] && OccursAt(text, pos, s) &&
        (forall p :: pos <= p < pos + |s| ==> MatchAt(text, p, open, close).None?) &&
        (|segs| > 1 ==> segs[1].Chord?) &&
        Tiles(text, pos + |s|, segs[1..], open, close)
      case Chord(b) =>
        MatchAt(text, pos, open, close) == Some(b) &&
        Tiles(text, pos + |open| + |b| + |close|, segs[1..], open, close)
  }

  /** A chord where the pattern matches, then a correct split of what follows it. */
  lemma TilesChord(text: string, pos: nat, b: string, rest: seq<Segment>, open: string, close: string)
    requires pos <= |text| && MatchAt(text, pos, open, close) == Some(b)
    requires Tiles(text, pos + |open| + |b| + |close|, rest, open, close)
    ensures Tiles(text, pos, [Chord(b)] + rest, open, close)
  {
    assert ([Chord(b)] + rest)[1..] == rest;
  }

  /** Text without a match up to a chord, then a correct split from that chord on. */
  lemma TilesGap(text: string, pos: nat, q: nat, rest: seq<Segment>, open: string, close: string)
    requires pos < q <= |text|
    requires forall p :: pos <= p < q ==> MatchAt(text, p, open, close).None?
    requires rest != [] && rest[0].Chord? && Tiles(text, q, rest, open, close)
    ensures Tiles(text, pos, [Plain(text[pos..q])] + rest, open, close)
  {
    assert ([Plain(text[pos..q])] + rest)[1..] == rest;
  }

  /** The rest of the text, without a match, as the last segment. */
  lemma TilesTail(text: string, pos: nat, open: string, close: string)
    requires pos < |text|
    requires forall p :: pos <= p < |text| ==> MatchAt(text, p, open, close).None?
    ensures Tiles(text, pos, [Plain(text[pos..])], open, close)
  {
    assert [Plain(text[pos..])][1..] == [];
  }

  /** The scan's split is correct where the search finds nothing more. */
  lemma ScanTilesAtEnd(text: string, from: nat, open: string, close: string)
    requires from <= |text| && Exec(text, from, open, close).None?
    ensures Tiles(text, from, Scan(text, from, open, close), open, close)
  {
    ScanNotFound(text, from, open, close);
    if from < |text| {
      TilesTail(text, from, open, close);
    }
  }

  /** The scan's split is correct up to and including the next chord, given that it is correct after it. */
  lemma ScanTilesStep(text: string, from: nat, m: Match, open: string, close: string)
    requires from <= |text| && Exec(text, from, open, close) == Some(m)
    requires MatchEnd(m, open, close) <= |text|
    requires Tiles(text, MatchEnd(m, open, close), Scan(text, MatchEnd(m, open, close), open, close), open, close)
    ensures Tiles(text, from, Scan(text, from, open, close), open, close)
  {
    ScanFound(text, from, m, open, close);
    var after := Scan(text, MatchEnd(m, open, close), open, close);
    TilesChord(text, m.start, m.body, after, open, close);
    if from < m.start {
      TilesGap(text, from, m.start, [Chord(m.body)] + after, open, close);
    }
  }

  /** The scan produces a correct split: leftmost, non-overlapping, no empty text. */
  lemma {:induction false} ScanTiles(text: string, from: nat, open: string, close: string)
    requires from <= |text|
    ensures Tiles(text, from, Scan(text, from, open, close), open, close)
    decreases |text| - from
  {
    match Exec(text, from, open, close)
    case None =>
      ScanTilesAtEnd(text, from, open, close);
    case Some(m) =>
      ScanTiles(text, MatchEnd(m, open, close), open, close);
      ScanTilesStep(text, from, m, open, close);
  }

  /** One step of the scan when the search finds a match: the gap (if any), the chord, the rest. */
  lemma ScanFound(text: string, pos: nat, m: Match, open: string, close: string)
    requires pos <= |text| && Exec(text, pos, open, close) == Some(m)
    ensures pos <= m.start < MatchEnd(m, open, close) <= |text|
    ensures Scan(text, pos, open, close) ==
              (if pos < m.start then [Plain(text[pos..m.start])] else [])
              + ([Chord(m.body)] + Scan(text, MatchEnd(m, open, close), open, close))
  {
    var gap := if pos < m.start then [Plain(text[pos..m.start])] else [];
    var rest := Scan(text, MatchEnd(m, open, close), open, close);
    assert gap + [Chord(m.body)] + rest == gap + ([Chord(m.body)] + rest);
  }

  /** The scan when the search finds nothing: the rest of the text, if any. */
  lemma ScanNotFound(text: string, pos: nat, open: string, close: string)
    requires pos <= |text| && Exec(text, pos, open, close).None?
    ensures Scan(text, pos, open, close) == if pos < |text| then [Plain(text[pos..])] else []
  {
  }

  /** Where the pattern matches at the search position, the scan emits that chord first. */
  lemma ScanAtChord(text: string, pos: nat, b: string, open: string, close: string)
    requires pos <= |text| && MatchAt(text, pos, open, close) == Some(b)
    ensures pos + |open| + |b| + |close| <= |text|
    ensures Scan(text, pos, open, close) == [Chord(b)] + Scan(text, pos + |open| + |b| + |close|, open, close)
  {
    ExecFinds(text, pos, pos, open, close);
    ScanFound(text, pos, Match(pos, b), open, close);
  }

  /** Text without a match before the next match is emitted as one plain segment. */
  lemma ScanAtGap(text: string, pos: nat, q: nat, open: string, close: string)
    requires pos < q <= |text| && MatchAt(text, q, open, close).Some?
    requires forall p :: pos <= p < q ==> MatchAt(text, p, open, close).None?
    ensures Scan(text, pos, open, close) == [Plain(text[pos..q])] + Scan(text, q, open, close)
  {
    var m := Match(q, MatchAt(text, q, open, close).value);
    ExecFinds(text, pos, q, open, close);
    ExecFinds(text, q, q, open, close);
    ScanFound(text, pos, m, open, close);
    ScanFound(text, q, m, open, close);
    var rest := [Chord(m.body)] + Scan(text, MatchEnd(m, open, close), open, close);
    assert [] + rest == rest;
  }

  /** With no match left, the rest of the text is emitted as one plain segment, if it is not empty. */
  lemma ScanAtTail(text: string, pos: nat, open: string, close: string)
    requires pos <= |text|
    requires forall p :: pos <= p < |text| ==> MatchAt(text, p, open, close).None?
    ensures Scan(text, pos, open, close) == if pos < |text| then [Plain(text[pos..])] else []
  {
    MatchAtEncloses(text, |text|, open, close);
    ExecMisses(text, pos, open, close);
    ScanNotFound(text, pos, open, close);
  }

  /** There is only one correct split: it is the one the scan produces. */
  lemma {:induction false} TilesUnique(text: string, pos: nat, segs: seq<Segment>, open: string, close: string)
    requires Tiles(text, pos, segs, open, close)
    ensures segs == Scan(text, pos, open, close)
    decreases |segs|, 1
  {
    if segs == [] {
      ScanAtTail(text, pos, open, close);
    } else {
      match segs[0]
      case Chord(b) =>
        ScanAtChord(text, pos, b, open, close);
        TilesUnique(text, pos + |open| + |b| + |close|, segs[1..], open, close);
      case Plain(s) =>
        TilesUniquePlain(text, pos, segs, open, close);
    }
  }

  lemma {:induction false} TilesUniquePlain(text: string, pos: nat, segs: seq<Segment>, open: string, close: string)
    requires segs != [] && segs[0].Plain? && Tiles(text, pos, segs, open, close)
    ensures segs == Scan(text, pos, open, close)
    decreases |segs|, 0
  {
    var s := segs[0].text;
    var q := pos + |s|;
    assert OccursAt(text, pos, s);
    assert s == text[pos..q];
    if |segs| == 1 {
      assert Tiles(text, q, segs[1..], open, close) && segs[1..] == [];
      assert q == |text| && text[pos..] == s;
      assert segs == [segs[0]];
      ScanAtTail(text, pos, open, close);
    } else {
      var rest := segs[1..];
      assert Tiles(text, q, rest, open, close) && rest[0].Chord?;
      assert MatchAt(text, q, open, close).Some?;
      ScanAtGap(text, pos, q, open, close);
      TilesUnique(text, q, rest, open, close);
      assert segs == [Plain(s)] + rest;
    }
  }

  /** The segments, written back with their markers, lie end to end over `text[pos..]`. */
  predicate Laid(text: string, pos: nat, segs: seq<Segment>, open: string, close: string)
    decreases |segs|
  {
    if segs == [] then pos == |text|
    else
      var w := Written(segs[0], open, close);
      OccursAt(text, pos, w) && Laid(text, pos + |w|, segs[1..], open, close)
  }

  lemma {:induction false} TilesLaid(text: string, pos: nat, segs: seq<Segment>, open: string, close: string)
    requires Tiles(text, pos, segs, open, close)
    ensures Laid(text, pos, segs, open, close)
    decreases |segs|
  {
    if segs != [] {
      var w := Written(segs[0], open, close);
      if segs[0].Chord? {
        MatchAtEncloses(text, pos, open, close);
      }
      TilesLaid(text, pos + |w|, segs[1..], open, close);
    }
  }

  /** Writing laid-out segments back gives the text they cover. */
  lemma {:induction false} LaidRebuild(text: string, pos: nat, segs: seq<Segment>, open: string, close: string)
    requires Laid(text, pos, segs, open, close)
    ensures pos <= |text| && Rebuild(segs, open, close) == text[pos..]
    decreases |segs|
  {
    if segs != [] {
      var w := Written(segs[0], open, close);
      var rest := segs[1..];
      LaidRebuild(text, pos + |w|, rest, open, close);
      OccursThenRest(text, pos, w);
    }
  }

  /** Writing a correct split back, markers restored, gives the text again. */
  lemma TilesRebuild(text: string, pos: nat, segs: seq<Segment>, open: string, close: string)
    requires Tiles(text, pos, segs, open, close)
    ensures Rebuild(segs, open, close) == text[pos..]
  {
    TilesLaid(text, pos, segs, open, close);
    LaidRebuild(text, pos, segs, open, close);
  }

  /** Round trip: the emitted segments, chords written back with their markers, are the leaf text. */
  lemma ScanRoundTrip(text: string, open: string, close: string)
    ensures Rebuild(Scan(text, 0, open, close), open, close) == text
  {
    ScanTiles(text, 0, open, close);
    TilesRebuild(text, 0, Scan(text, 0, open, close), open, close);
  }

  /** Every chord the scan emits is a chord body; every plain segment is non-empty text. */
  lemma {:induction false} ScanSegmentsWellFormed(text: string, from: nat, open: string, close: string)
    requires from <= |text|
    ensures forall i :: 0 <= i < |Scan(text, from, open, close)| ==>
              match Scan(text, from, open, close)[i]
              case Chord(b) => IsChordBody(b)
              case Plain(s) => s != []
    decreases |text| - from
  {
    match Exec(text, from, open, close)
    case None =>
    case Some(m) =>
      MatchAtSound(text, m.start, open, close);
      ScanSegmentsWellFormed(text, MatchEnd(m, open, close), open, close);
  }

  /** A non-empty leaf where the pattern matches nowhere is emitted as one text segment, unchanged. */
  lemma ScanWithoutMatch(text: string, open: string, close: string)
    requires text != []
    requires forall p :: 0 <= p <= |text| ==> MatchAt(text, p, open, close).None?
    ensures Scan(text, 0, open, close) == [Plain(text)]
  {
    assert Exec(text, 0, open, close).None?;
  }

  /** Where the opening marker is not followed by a root letter A-G, the pattern does not match. */
  lemma NoChordWithoutRoot(text: string, p: nat, open: string, close: string)
    requires p <= |text|
    requires OccursAt(text, p, open) && p + |open| < |text| ==> !IsRoot(text[p + |open|])
    ensures MatchAt(text, p, open, close).None?
  {
    MatchAtEncloses(text, p, open, close);
    MatchAtSound(text, p, open, close);
  }

  /** A non-empty leaf in which no opening marker is followed by a root letter is emitted unchanged. */
  lemma ScanWithoutRoot(text: string, open: string, close: string)
    requires text != []
    requires forall p :: 0 <= p <= |text| && OccursAt(text, p, open) && p + |open| < |text| ==> !IsRoot(text[p + |open|])
    ensures Scan(text, 0, open, close) == [Plain(text)]
  {
    forall p | 0 <= p <= |text|
      ensures MatchAt(text, p, open, close).None?
    {
      NoChordWithoutRoot(text, p, open, close);
    }
    ScanWithoutMatch(text, open, close);
  }

  /** With the literal palindromic marker `<<`, the text `<<H<<` holds no chord: `H` is not a root. */
  lemma MarkedHIsNoChord()
    ensures IsLiteralMarker("<<") && Reverse("<<") == "<<"
    ensures Scan("<<H<<", 0, "<<", Reverse("<<")) == [Plain("<<H<<")]
  {
    var text := "<<H<<";
    PalindromeClosesWithItself("<<");
    forall q | 2 <= q < |text|
      ensures !IsRoot(text[q])
    {
      assert text[q] in "H<<";
    }
    ScanWithoutRoot(text, "<<", "<<");
  }
}
