/**
 `goodcsvoutput` (J_IPX800.js:35-40), the validator of the output-relay list.

 The pattern is `^(U)+(,U)*$` with the unit
   U = \d+(W-\d+-\d+(-\d+)*|P)?
 i.e. a relay number optionally followed by `P` (pulse) or by `W` and at least
 two dash-led numbers (a cover: the number before `W` is its up relay, then
 its stop relay, its down relay and optional timings). The
 pattern has no `i` flag, so only upper-case `P` and `W` are accepted.

 The first comma-separated entry is `(U)+`: several units may be glued
 together without a separator, so "1P2" and "12W-3-4" are accepted and the
 first entry is split into units wherever that makes the text match. Every
 later entry is exactly one unit.

 The recogniser is a deterministic automaton run over each entry; the
 specification is the existence of a parse into units. `FieldAcceptedIsSpec`
 proves the two agree in both directions.
 */
module OutputRelays {
  import opened Text

  /** What follows a relay number in a unit. */
  datatype Suffix = Plain | Pulse | Cover(groups: seq<string>)

  /** One unit of the pattern: a relay number and its suffix. */
  datatype Unit = Unit(channel: string, suffix: Suffix)

  function SuffixText(x: Suffix): string {
    match x
    case Plain => []
    case Pulse => "P"
    case Cover(groups) => "W" + SepGroups('-', groups)
  }

  function UnitText(u: Unit): string {
    u.channel + SuffixText(u.suffix)
  }

  /** Every group is a non-empty digit run. */
  predicate AllRuns(gs: seq<string>) {
    forall i :: 0 <= i < |gs| ==> IsDigitRun(gs[i])
  }

  /** `\d+` for the relay number; a cover names at least its stop and its down relay. */
  predicate UnitOk(u: Unit) {
    && IsDigitRun(u.channel)
    && (u.suffix.Cover? ==> |u.suffix.groups| >= 2 && AllRuns(u.suffix.groups))
  }

  predicate AllUnitsOk(us: seq<Unit>) {
    forall i :: 0 <= i < |us| ==> UnitOk(us[i])
  }

  /** Units written one after the other with nothing between them. */
  function UnitsText(us: seq<Unit>): string {
    if us == [] then [] else UnitsText(us[..|us|-1]) + UnitText(us[|us|-1])
  }

  /**
   The language of one entry: one or more units when `glue` holds (the first
   entry, `(U)+`), exactly one unit otherwise (`,U`).
   */
  ghost predicate FieldSpec(f: string, glue: bool) {
    exists us: seq<Unit> :: FieldParse(f, glue, us)
  }

  /** `us` is a parse of the entry `f`. */
  predicate FieldParse(f: string, glue: bool, us: seq<Unit>) {
    |us| >= 1 && (glue || |us| == 1) && AllUnitsOk(us) && UnitsText(us) == f
  }

  /** The language of the whole pattern. */
  ghost predicate OutputListSpec(s: string) {
    exists head: string, tail: seq<string> :: ListParse(s, head, tail)
  }

  /** `s` is the entry `head` followed by the comma-led entries `tail`, each of which parses. */
  ghost predicate ListParse(s: string, head: string, tail: seq<string>) {
    && ListText(',', head, tail) == s
    && FieldSpec(head, true)
    && forall i :: 0 <= i < |tail| ==> FieldSpec(tail[i], false)
  }

  /** States of the automaton that reads one entry. */
  datatype State =
    | Start          // nothing read yet
    | Channel        // inside the digits of a relay number
    | PulseMark      // just after `P`
    | CoverMark      // just after `W`
    | CoverDash      // `W-`
    | StopDigits     // inside the first (stop) group
    | StopDash       // the dash after the stop group
    | LastGroupOne   // a later cover group with one digit so far
    | LastGroupMany  // a later cover group with two or more digits so far
    | GroupDash      // a dash after the second or a later cover group
    | Dead           // no continuation can match

  /**
   One transition. Under `glue` a new unit may start after a pulse or, by
   taking the last digit of a cover group as its relay number, after a cover.
   */
  function Step(q: State, c: char, glue: bool): State {
    if IsDigit(c) then
      match q
      case Start => Channel
      case Channel => Channel
      case PulseMark => if glue then Channel else Dead
      case CoverDash => StopDigits
      case StopDigits => StopDigits
      case StopDash => LastGroupOne
      case LastGroupOne => LastGroupMany
      case LastGroupMany => LastGroupMany
      case GroupDash => LastGroupOne
      case _ => Dead
    else if c == '-' then
      match q
      case CoverMark => CoverDash
      case StopDigits => StopDash
      case LastGroupOne => GroupDash
      case LastGroupMany => GroupDash
      case _ => Dead
    else if c == 'P' then
      if q == Channel || (glue && q == LastGroupMany) then PulseMark else Dead
    else if c == 'W' then
      if q == Channel || (glue && q == LastGroupMany) then CoverMark else Dead
    else Dead
  }

  /** The states in which a complete unit has just been read. */
  predicate Accepting(q: State) {
    q == Channel || q == PulseMark || q == LastGroupOne || q == LastGroupMany
  }

  function Run(q: State, s: string, glue: bool): State {
    if s == [] then q else Step(Run(q, s[..|s|-1], glue), s[|s|-1], glue)
  }

  /** Runs the automaton over one entry. */
  function FieldAccepted(f: string, glue: bool): (r: bool)
    ensures r <==> FieldSpec(f, glue)
  {
    FieldAcceptedIsSpec(f, glue);
    Accepting(Run(Start, f, glue))
  }

  /**
   `goodcsvoutput`: cut at the commas, run the automaton over the first entry
   with gluing allowed and over every later entry without.
   */
  function GoodCsvOutput(s: string): (r: bool)
    ensures r <==> OutputListSpec(s)
  {
    var parts := Split(s, ',');
    var r := FieldAccepted(parts[0], true) && forall i | 1 <= i < |parts| :: FieldAccepted(parts[i], false);
    GoodCsvOutputCorrect(s);
    r
  }

  // ---------------------------------------------------------------------------
  // Text facts

  lemma UnitsSnoc(us: seq<Unit>, u: Unit)
    ensures UnitsText(us + [u]) == UnitsText(us) + UnitText(u)
  {
    assert (us + [u])[..|us|] == us;
  }

  lemma SepGroupsOne(sep: char, g: string)
    ensures SepGroups(sep, [g]) == [sep] + g
  {
    SepGroupsSnoc(sep, [], g);
  }

  /** Appending a character to the last group appends it to the text. */
  lemma SepGroupsExtendLast(sep: char, gs: seq<string>, c: char)
    requires |gs| >= 1
    ensures SepGroups(sep, gs[..|gs|-1] + [gs[|gs|-1] + [c]]) == SepGroups(sep, gs) + [c]
  {
    var init := gs[..|gs|-1];
    SepGroupsSnoc(sep, init, gs[|gs|-1] + [c]);
    SepGroupsSnoc(sep, init, gs[|gs|-1]);
    assert gs == init + [gs[|gs|-1]];
  }

  // ---------------------------------------------------------------------------
  // Soundness: what a state says about the text read so far

  /** The text of the unit still being read, for each state. */
  function Pending(q: State, d: string, gs: seq<string>): string {
    match q
    case Channel => d
    case PulseMark => d + "P"
    case CoverDash => d + "W" + SepGroups('-', gs) + "-"
    case StopDash => d + "W" + SepGroups('-', gs) + "-"
    case GroupDash => d + "W" + SepGroups('-', gs) + "-"
    case _ => d + "W" + SepGroups('-', gs)
  }

  /** How many cover groups each state has seen. */
  predicate Shape(q: State, gs: seq<string>) {
    match q
    case Channel => gs == []
    case PulseMark => gs == []
    case CoverMark => gs == []
    case CoverDash => gs == []
    case StopDigits => |gs| == 1
    case StopDash => |gs| == 1
    case LastGroupOne => |gs| >= 2
    case GroupDash => |gs| >= 2
    case LastGroupMany => |gs| >= 2 && |gs[|gs|-1]| >= 2
    case _ => true
  }

  /**
   `p` is what was read to reach `q`: complete units `us` (only allowed
   before the current unit when gluing), then the current unit's relay number
   `d` and cover groups `gs` so far.
   */
  predicate Holds(q: State, p: string, glue: bool, us: seq<Unit>, d: string, gs: seq<string>) {
    if q == Start then p == []
    else if q == Dead then true
    else
      && AllUnitsOk(us) && (glue || us == [])
      && IsDigitRun(d) && AllRuns(gs) && Shape(q, gs)
      && p == UnitsText(us) + Pending(q, d, gs)
  }

  lemma DigitStepSound(q: State, p: string, c: char, glue: bool, us: seq<Unit>, d: string, gs: seq<string>)
      returns (us': seq<Unit>, d': string, gs': seq<string>)
    requires IsDigit(c) && Holds(q, p, glue, us, d, gs)
    ensures Holds(Step(q, c, glue), p + [c], glue, us', d', gs')
  {
    us', d', gs' := us, d, gs;
    if q == Start || q == Channel || q == PulseMark {
      us', d', gs' := ChannelDigitSound(q, p, c, glue, us, d, gs);
    } else if q == StopDigits || q == LastGroupOne || q == LastGroupMany {
      gs' := GroupDigitSound(q, p, c, glue, us, d, gs);
    } else if q == CoverDash || q == StopDash || q == GroupDash {
      gs' := NewGroupDigitSound(q, p, c, glue, us, d, gs);
    }
  }

  /** A digit after the start, inside a relay number or after a glued pulse. */
  lemma ChannelDigitSound(q: State, p: string, c: char, glue: bool, us: seq<Unit>, d: string, gs: seq<string>)
      returns (us': seq<Unit>, d': string, gs': seq<string>)
    requires q == Start || q == Channel || q == PulseMark
    requires IsDigit(c) && Holds(q, p, glue, us, d, gs)
    ensures Holds(Step(q, c, glue), p + [c], glue, us', d', gs')
  {
    us', d', gs' := us, d, gs;
    if q == Start {
      us', d', gs' := [], [c], [];
    } else if q == Channel {
      d' := d + [c];
      assert p + [c] == UnitsText(us) + d';
    } else if glue {
      var u := Unit(d, Pulse);
      UnitsSnoc(us, u);
      us', d', gs' := us + [u], [c], [];
      assert p + [c] == UnitsText(us') + d';
    }
  }

  /** A digit after a dash opens a new cover group. */
  lemma NewGroupDigitSound(q: State, p: string, c: char, glue: bool, us: seq<Unit>, d: string, gs: seq<string>)
      returns (gs': seq<string>)
    requires q == CoverDash || q == StopDash || q == GroupDash
    requires IsDigit(c) && Holds(q, p, glue, us, d, gs)
    ensures Holds(Step(q, c, glue), p + [c], glue, us, d, gs')
  {
    gs' := gs + [[c]];
    SepGroupsSnoc('-', gs, [c]);
    assert AllRuns(gs') by {
      forall i | 0 <= i < |gs'| ensures IsDigitRun(gs'[i]) {
        if i < |gs| { assert gs'[i] == gs[i]; }
      }
    }
    assert p + [c] == UnitsText(us) + (d + "W" + SepGroups('-', gs'));
  }

  /** A digit inside a cover group extends that group. */
  lemma GroupDigitSound(q: State, p: string, c: char, glue: bool, us: seq<Unit>, d: string, gs: seq<string>)
      returns (gs': seq<string>)
    requires q == StopDigits || q == LastGroupOne || q == LastGroupMany
    requires IsDigit(c) && Holds(q, p, glue, us, d, gs)
    ensures Holds(Step(q, c, glue), p + [c], glue, us, d, gs')
  {
    var n := |gs|;
    gs' := gs[..n-1] + [gs[n-1] + [c]];
    SepGroupsExtendLast('-', gs, c);
    assert |gs'| == n && |gs'[n-1]| >= 2;
    assert AllRuns(gs') by {
      forall i | 0 <= i < n ensures IsDigitRun(gs'[i]) {
        if i < n - 1 { assert gs'[i] == gs[i]; }
      }
    }
  }

  lemma DashStepSound(q: State, p: string, glue: bool, us: seq<Unit>, d: string, gs: seq<string>)
    requires Holds(q, p, glue, us, d, gs)
    ensures Holds(Step(q, '-', glue), p + "-", glue, us, d, gs)
  {
  }

  /**
   `P` or `W` after a cover group of two or more digits: the group's last
   digit becomes the relay number of a new unit.
   */
  lemma SplitCoverSound(p: string, glue: bool, us: seq<Unit>, d: string, gs: seq<string>)
      returns (us': seq<Unit>, x: char)
    requires glue && Holds(LastGroupMany, p, glue, us, d, gs)
    ensures AllUnitsOk(us') && IsDigit(x) && p == UnitsText(us') + [x]
  {
    var u;
    u, x := CoverLastDigit(d, gs);
    assert p == UnitsText(us) + (d + "W" + SepGroups('-', gs));
    UnitsSnoc(us, u);
    us' := us + [u];
  }

  /** A cover whose last group has two or more digits is a cover followed by one digit. */
  lemma CoverLastDigit(d: string, gs: seq<string>) returns (u: Unit, x: char)
    requires IsDigitRun(d) && AllRuns(gs) && |gs| >= 2 && |gs[|gs|-1]| >= 2
    ensures UnitOk(u) && IsDigit(x)
    ensures d + "W" + SepGroups('-', gs) == UnitText(u) + [x]
  {
    var n := |gs|;
    var last := gs[n-1];
    var l' := last[..|last|-1];
    x := last[|last|-1];
    var gs1 := gs[..n-1] + [l'];
    assert gs1[..n-1] == gs[..n-1] && gs1[n-1] == l';
    assert l' + [x] == last;
    assert gs == gs[..n-1] + [last];
    SepGroupsExtendLast('-', gs1, x);
    assert AllRuns(gs1) by {
      forall i | 0 <= i < n ensures IsDigitRun(gs1[i]) {
        if i < n - 1 { assert gs1[i] == gs[i]; }
      }
    }
    u := Unit(d, Cover(gs1));
  }

  lemma MarkStepSound(q: State, p: string, c: char, glue: bool, us: seq<Unit>, d: string, gs: seq<string>)
      returns (us': seq<Unit>, d': string, gs': seq<string>)
    requires (c == 'P' || c == 'W') && Holds(q, p, glue, us, d, gs)
    ensures Holds(Step(q, c, glue), p + [c], glue, us', d', gs')
  {
    us', d', gs' := us, d, [];
    if q == Channel {
      ChannelMarkSound(p, c, glue, us, d, gs);
    } else if glue && q == LastGroupMany {
      us', d' := GluedMarkSound(p, c, us, d, gs);
    } else {
      assert Step(q, c, glue) == Dead;
    }
  }

  /** `P` or `W` after a relay number. */
  lemma ChannelMarkSound(p: string, c: char, glue: bool, us: seq<Unit>, d: string, gs: seq<string>)
    requires (c == 'P' || c == 'W') && Holds(Channel, p, glue, us, d, gs)
    ensures Holds(Step(Channel, c, glue), p + [c], glue, us, d, [])
  {
    assert Pending(Step(Channel, c, glue), d, []) == d + [c];
  }

  /** `P` or `W` after a cover whose last digit becomes the next relay number. */
  lemma GluedMarkSound(p: string, c: char, us: seq<Unit>, d: string, gs: seq<string>)
      returns (us': seq<Unit>, d': string)
    requires (c == 'P' || c == 'W') && Holds(LastGroupMany, p, true, us, d, gs)
    ensures Holds(Step(LastGroupMany, c, true), p + [c], true, us', d', [])
  {
    var x;
    us', x := SplitCoverSound(p, true, us, d, gs);
    d' := [x];
    assert Pending(Step(LastGroupMany, c, true), d', []) == [x, c];
  }

  lemma StepSound(q: State, p: string, c: char, glue: bool, us: seq<Unit>, d: string, gs: seq<string>)
      returns (us': seq<Unit>, d': string, gs': seq<string>)
    requires Holds(q, p, glue, us, d, gs)
    ensures Holds(Step(q, c, glue), p + [c], glue, us', d', gs')
  {
    us', d', gs' := us, d, gs;
    if IsDigit(c) {
      us', d', gs' := DigitStepSound(q, p, c, glue, us, d, gs);
    } else if c == '-' {
      DashStepSound(q, p, glue, us, d, gs);
    } else if c == 'P' || c == 'W' {
      us', d', gs' := MarkStepSound(q, p, c, glue, us, d, gs);
    }
  }

  lemma {:induction false} RunSound(s: string, glue: bool) returns (us: seq<Unit>, d: string, gs: seq<string>)
    ensures Holds(Run(Start, s, glue), s, glue, us, d, gs)
    decreases |s|
  {
    if s == [] {
      us, d, gs := [], [], [];
    } else {
      var s' := s[..|s|-1];
      var c := s[|s|-1];
      var us0, d0, gs0 := RunSound(s', glue);
      us, d, gs := StepSound(Run(Start, s', glue), s', c, glue, us0, d0, gs0);
      assert s' + [c] == s;
    }
  }

  /** An accepting state has read a whole number of units. */
  lemma AcceptSound(q: State, p: string, glue: bool, us: seq<Unit>, d: string, gs: seq<string>)
    requires Accepting(q) && Holds(q, p, glue, us, d, gs)
    ensures FieldSpec(p, glue)
  {
    var u := PendingUnit(q, d, gs);
    assert p == UnitsText(us) + UnitText(u);
    UnitsSnoc(us, u);
    assert AllUnitsOk(us + [u]);
    assert FieldParse(p, glue, us + [u]);
  }

  /** In an accepting state the pending text is a whole unit. */
  lemma PendingUnit(q: State, d: string, gs: seq<string>) returns (u: Unit)
    requires Accepting(q) && IsDigitRun(d) && AllRuns(gs) && Shape(q, gs)
    ensures UnitOk(u) && UnitText(u) == Pending(q, d, gs)
  {
    if q == Channel {
      u := Unit(d, Plain);
      assert UnitText(u) == d + [];
    } else if q == PulseMark {
      u := Unit(d, Pulse);
    } else {
      u := Unit(d, Cover(gs));
    }
  }

  // ---------------------------------------------------------------------------
  // Completeness: every parse drives the automaton to an accepting state

  lemma {:induction false} RunConcat(q: State, a: string, b: string, glue: bool)
    ensures Run(q, a + b, glue) == Run(Run(q, a, glue), b, glue)
    decreases |b|
  {
    if b == [] {
      assert a + b == a;
    } else {
      var b' := b[..|b|-1];
      RunConcat(q, a, b', glue);
      assert (a + b)[..|a + b|-1] == a + b';
    }
  }

  /** Where a run of digits leads from each state that accepts one. */
  lemma {:induction false} RunDigits(q: State, g: string, glue: bool)
    requires IsDigitRun(g)
    ensures q == Start || q == Channel || (glue && q == PulseMark) ==> Run(q, g, glue) == Channel
    ensures q == LastGroupOne || q == LastGroupMany ==> Run(q, g, glue) == LastGroupMany
    ensures q == CoverDash || q == StopDigits ==> Run(q, g, glue) == StopDigits
    ensures q == StopDash || q == GroupDash ==> Run(q, g, glue) == LastGroupOne || Run(q, g, glue) == LastGroupMany
    decreases |g|
  {
    var g' := g[..|g|-1];
    if |g| > 1 {
      RunDigits(q, g', glue);
    } else {
      assert g' == [];
    }
  }

  /** Reading the `W-g1-g2...` groups of a cover after `W`. */
  lemma {:induction false} RunGroups(gs: seq<string>, glue: bool)
    requires AllRuns(gs)
    ensures |gs| == 0 ==> Run(CoverMark, SepGroups('-', gs), glue) == CoverMark
    ensures |gs| == 1 ==> Run(CoverMark, SepGroups('-', gs), glue) == StopDigits
    ensures |gs| >= 2 ==> Run(CoverMark, SepGroups('-', gs), glue) in {LastGroupOne, LastGroupMany}
    decreases |gs|
  {
    if gs != [] {
      var init := gs[..|gs|-1];
      var g := gs[|gs|-1];
      RunGroups(init, glue);
      SepGroupsSnoc('-', init, g);
      assert gs == init + [g];
      var t := SepGroups('-', init);
      RunConcat(CoverMark, t + ['-'], g, glue);
      RunConcat(CoverMark, t, ['-'], glue);
      RunDigits(Run(CoverMark, t + ['-'], glue), g, glue);
    }
  }

  /** States from which a new unit may begin. */
  predicate UnitBoundary(q: State, glue: bool) {
    q == Start || (glue && Accepting(q))
  }

  lemma RunUnit(q: State, u: Unit, glue: bool)
    requires UnitOk(u) && UnitBoundary(q, glue)
    ensures Accepting(Run(q, UnitText(u), glue))
  {
    RunConcat(q, u.channel, SuffixText(u.suffix), glue);
    RunDigits(q, u.channel, glue);
    RunSuffix(Run(q, u.channel, glue), u.suffix, glue);
  }

  /** After a relay number, each suffix ends in an accepting state. */
  lemma RunSuffix(q: State, x: Suffix, glue: bool)
    requires q == Channel || (glue && q == LastGroupMany)
    requires x.Cover? ==> |x.groups| >= 2 && AllRuns(x.groups)
    ensures Accepting(Run(q, SuffixText(x), glue))
  {
    match x
    case Plain =>
    case Pulse =>
      assert "P"[..0] == [];
    case Cover(gs) =>
      RunConcat(q, "W", SepGroups('-', gs), glue);
      assert "W"[..0] == [];
      RunGroups(gs, glue);
  }

  lemma {:induction false} RunUnits(us: seq<Unit>, glue: bool)
    requires AllUnitsOk(us) && (glue || |us| <= 1)
    ensures us == [] ==> Run(Start, UnitsText(us), glue) == Start
    ensures us != [] ==> Accepting(Run(Start, UnitsText(us), glue))
    decreases |us|
  {
    if us != [] {
      var init := us[..|us|-1];
      var u := us[|us|-1];
      RunUnits(init, glue);
      RunConcat(Start, UnitsText(init), UnitText(u), glue);
      RunUnit(Run(Start, UnitsText(init), glue), u, glue);
    }
  }

  /** The automaton accepts an entry exactly when the entry parses into units. */
  lemma FieldAcceptedIsSpec(f: string, glue: bool)
    ensures Accepting(Run(Start, f, glue)) <==> FieldSpec(f, glue)
  {
    if Accepting(Run(Start, f, glue)) {
      var us, d, gs := RunSound(f, glue);
      AcceptSound(Run(Start, f, glue), f, glue, us, d, gs);
    }
    if FieldSpec(f, glue) {
      var us :| FieldParse(f, glue, us);
      RunUnits(us, glue);
    }
  }

  // ---------------------------------------------------------------------------
  // The alphabet, and the list level

  /** A run that is not dead read only digits, `P`, `W` and `-`. */
  lemma {:induction false} LiveRunAlphabet(q: State, s: string, glue: bool)
    requires Run(q, s, glue) != Dead
    ensures forall i :: 0 <= i < |s| ==> IsDigit(s[i]) || s[i] in "PW-"
    decreases |s|
  {
    if s != [] {
      var s' := s[..|s|-1];
      assert Step(Run(q, s', glue), s[|s|-1], glue) != Dead;
      LiveRunAlphabet(q, s', glue);
      forall i | 0 <= i < |s| ensures IsDigit(s[i]) || s[i] in "PW-" {
        if i < |s| - 1 { assert s[i] == s'[i]; }
      }
    }
  }

  /** An entry contains no comma. */
  lemma FieldHasNoComma(f: string, glue: bool)
    requires FieldSpec(f, glue)
    ensures ',' !in f
  {
    FieldAcceptedIsSpec(f, glue);
    LiveRunAlphabet(Start, f, glue);
  }

  lemma GoodCsvOutputCorrect(s: string)
    ensures var parts := Split(s, ',');
            (FieldAccepted(parts[0], true) && forall i | 1 <= i < |parts| :: FieldAccepted(parts[i], false))
            <==> OutputListSpec(s)
  {
    var parts := Split(s, ',');
    if FieldAccepted(parts[0], true) && forall i | 1 <= i < |parts| :: FieldAccepted(parts[i], false) {
      PartsAreSpec(s);
    }
    if OutputListSpec(s) {
      SpecIsParts(s);
    }
  }

  lemma PartsAreSpec(s: string)
    requires var parts := Split(s, ',');
             FieldAccepted(parts[0], true) && forall i | 1 <= i < |parts| :: FieldAccepted(parts[i], false)
    ensures OutputListSpec(s)
  {
    var parts := Split(s, ',');
    JoinSplit(s, ',');
    var tail := parts[1..];
    assert ListText(',', parts[0], tail) == s;
    forall i | 0 <= i < |tail| ensures FieldSpec(tail[i], false) {
      assert tail[i] == parts[i+1];
      assert FieldAccepted(parts[i+1], false);
    }
    assert ListParse(s, parts[0], tail);
  }

  lemma SpecIsParts(s: string)
    requires OutputListSpec(s)
    ensures var parts := Split(s, ',');
            FieldAccepted(parts[0], true) && forall i | 1 <= i < |parts| :: FieldAccepted(parts[i], false)
  {
    var head, tail :| ListParse(s, head, tail);
    var all := [head] + tail;
    assert SepFree(',', all) by {
      forall i | 0 <= i < |all| ensures ',' !in all[i] {
        if i == 0 {
          FieldHasNoComma(head, true);
        } else {
          assert all[i] == tail[i-1];
          FieldHasNoComma(tail[i-1], false);
        }
      }
    }
    ListIsJoin(',', head, tail);
    SplitJoin(',', all);
    var parts := Split(s, ',');
    assert parts == all;
    assert FieldAccepted(parts[0], true);
    forall i | 1 <= i < |parts| ensures FieldAccepted(parts[i], false) {
      assert parts[i] == tail[i-1];
    }
  }

  // ---------------------------------------------------------------------------
  // Reading lists entry by entry, and examples

  /** The automaton run over the first `n` characters, indexing rather than slicing. */
  function RunUpTo(q: State, s: string, n: nat, glue: bool): State
    requires n <= |s|
  {
    if n == 0 then q else Step(RunUpTo(q, s, n - 1, glue), s[n-1], glue)
  }

  lemma {:induction false} RunUpToIsRun(q: State, s: string, n: nat, glue: bool)
    requires n <= |s|
    ensures RunUpTo(q, s, n, glue) == Run(q, s[..n], glue)
  {
    if n > 0 {
      RunUpToIsRun(q, s, n - 1, glue);
      assert s[..n][..n-1] == s[..n-1];
    }
  }

  /** An entry parses into units iff the automaton, read by index, ends accepting. */
  lemma EntryByIndex(f: string, glue: bool)
    ensures FieldSpec(f, glue) <==> Accepting(RunUpTo(Start, f, |f|, glue))
  {
    RunUpToIsRun(Start, f, |f|, glue);
    assert f[..|f|] == f;
    FieldAcceptedIsSpec(f, glue);
  }

  /** The verdict on a list is the verdict on its comma-separated entries. */
  lemma ListOfEntries(parts: seq<string>)
    requires |parts| >= 1 && SepFree(',', parts)
    ensures OutputListSpec(Join(',', parts)) <==>
      FieldSpec(parts[0], true) && forall i | 1 <= i < |parts| :: FieldSpec(parts[i], false)
  {
    SplitJoin(',', parts);
    GoodCsvOutputCorrect(Join(',', parts));
  }

  /** A comma-free list is accepted iff its one entry is a sequence of glued units. */
  lemma SingleEntry(f: string)
    requires ',' !in f
    ensures OutputListSpec(f) <==> FieldSpec(f, true)
  {
    if OutputListSpec(f) {
      var head, tail :| ListParse(f, head, tail);
      FieldHasNoComma(head, true);
      SepInListText(',', head, tail);
      assert tail == [];
      assert f == head;
    }
    if FieldSpec(f, true) {
      assert ListText(',', f, []) == f;
      assert ListParse(f, f, []);
    }
  }

  /** One more comma-led unit keeps a list accepted. */
  lemma OutputSnoc(s: string, t: string)
    requires OutputListSpec(s) && FieldSpec(t, false)
    ensures OutputListSpec(s + [','] + t)
  {
    var head, tail :| ListParse(s, head, tail);
    var tail' := tail + [t];
    ListTextSnoc(',', head, tail, t);
    forall i | 0 <= i < |tail'| ensures FieldSpec(tail'[i], false) {
      if i < |tail| { assert tail'[i] == tail[i]; }
    }
    assert ListParse(s + [','] + t, head, tail');
  }

  /** A comma-free list, judged by running the automaton over it by index. */
  lemma SingleEntryByIndex(f: string, n: nat)
    requires ',' !in f && n == |f|
    ensures OutputListSpec(f) <==> Accepting(RunUpTo(Start, f, n, true))
  {
    EntryByIndex(f, true);
    SingleEntry(f);
  }

  /** One more comma-led entry that the automaton, read by index, accepts as a single unit. */
  lemma SnocByIndex(s: string, t: string, n: nat, st: string)
    requires n == |t| && st == s + [','] + t
    requires OutputListSpec(s) && Accepting(RunUpTo(Start, t, n, false))
    ensures OutputListSpec(st)
  {
    EntryByIndex(t, false);
    OutputSnoc(s, t);
  }

  /** Plain relay lists: "1,5,6". */
  lemma PlainListExample()
    ensures GoodCsvOutput("1,5,6")
  {
    assert RunUpTo(Start, "1", 1, true) == Channel;
    SingleEntryByIndex("1", 1);
    SnocRelay("1", "5", "1,5");
    SnocRelay("1,5", "6", "1,5,6");
  }

  /** The list the source gives as its example, with covers and plain relays. */
  lemma CoverListExample()
    ensures GoodCsvOutput("1W-2-3-20,2,3W-2-3-40,3W-2-3-40")
  {
    CoverListParses();
  }

  lemma CoverListParses()
    ensures OutputListSpec("1W-2-3-20,2,3W-2-3-40,3W-2-3-40")
  {
    CoverListPrefix();
    SnocCoverEntry("1W-2-3-20,2,3W-2-3-40", "1W-2-3-20,2,3W-2-3-40,3W-2-3-40");
  }

  /** Any accepted list stays accepted with the cover entry "3W-2-3-40" appended. */
  lemma SnocCoverEntry(s: string, st: string)
    requires OutputListSpec(s) && st == s + [','] + "3W-2-3-40"
    ensures OutputListSpec(st)
  {
    assert RunUpTo(Start, "3W-2-3-40", 9, false) == LastGroupMany;
    SnocByIndex(s, "3W-2-3-40", 9, st);
  }

  lemma CoverListPrefix()
    ensures OutputListSpec("1W-2-3-20,2,3W-2-3-40")
  {
    CoverListHead();
    SnocCoverEntry("1W-2-3-20,2", "1W-2-3-20,2,3W-2-3-40");
  }

  lemma CoverListHead()
    ensures OutputListSpec("1W-2-3-20,2")
  {
    CoverHeadEntry();
    SnocRelay("1W-2-3-20", "2", "1W-2-3-20,2");
  }

  lemma CoverHeadEntry()
    ensures OutputListSpec("1W-2-3-20")
  {
    assert RunUpTo(Start, "1W-2-3-20", 9, true) == LastGroupMany;
    SingleEntryByIndex("1W-2-3-20", 9);
  }

  /** Any accepted list stays accepted with a one-digit relay number appended. */
  lemma SnocRelay(s: string, t: string, st: string)
    requires OutputListSpec(s) && |t| == 1 && IsDigit(t[0]) && st == s + [','] + t
    ensures OutputListSpec(st)
  {
    assert RunUpTo(Start, t, 1, false) == Channel;
    SnocByIndex(s, t, 1, st);
  }

  /** Units glue together in the first entry. */
  lemma GlueExample()
    ensures GoodCsvOutput("1P2")
  {
    assert RunUpTo(Start, "1P2", 3, true) == Channel;
    SingleEntryByIndex("1P2", 3);
  }

  /** Units do not glue together in a later entry. */
  lemma NoGlueLaterExample()
    ensures !GoodCsvOutput("1,2P3")
  {
    GluedSecondEntry();
    SplitTwoEntries();
    var parts := Split("1,2P3", ',');
    assert !FieldAccepted(parts[1], false);
  }

  lemma GluedSecondEntry()
    ensures !FieldAccepted("2P3", false)
  {
    assert RunUpTo(Start, "2P3", 3, false) == Dead;
    RunUpToIsRun(Start, "2P3", 3, false);
    assert "2P3"[..3] == "2P3";
  }

  lemma SplitTwoEntries()
    ensures Split("1,2P3", ',') == ["1", "2P3"]
  {
    assert SepFree(',', ["1", "2P3"]);
    SplitJoin(',', ["1", "2P3"]);
    SepGroupsOne(',', "2P3");
    assert Join(',', ["1", "2P3"]) == "1,2P3";
  }

  /**
   A pulse cannot follow a cover whose last group has one digit, since that
   digit cannot be both the group and the pulsed relay.
   */
  lemma CoverThenPulseRejected()
    ensures !GoodCsvOutput("1W-2-3P")
  {
    assert RunUpTo(Start, "1W-2-3P", 7, true) == Dead;
    SingleEntryByIndex("1W-2-3P", 7);
  }

  /** With two digits in the last group, the last one is the pulsed relay. */
  lemma CoverThenPulseAccepted()
    ensures GoodCsvOutput("1W-2-34P")
  {
    assert RunUpTo(Start, "1W-2-34P", 8, true) == PulseMark;
    SingleEntryByIndex("1W-2-34P", 8);
  }

  /** The empty list is refused: the first entry needs a relay number. */
  lemma EmptyRejected()
    ensures !GoodCsvOutput("")
  {
    SingleEntryByIndex("", 0);
  }

  /** The pattern has no case-insensitive flag: a lower-case mark is refused. */
  lemma LowerCaseRejected()
    ensures !GoodCsvOutput("1w-2-3")
  {
    assert RunUpTo(Start, "1w-2-3", 6, true) == Dead;
    SingleEntryByIndex("1w-2-3", 6);
  }

  /** A cover needs both its stop and its down relay. */
  lemma ShortCoverRejected()
    ensures !GoodCsvOutput("1W-2")
  {
    assert RunUpTo(Start, "1W-2", 4, true) == StopDigits;
    SingleEntryByIndex("1W-2", 4);
  }

  /** The help text's example list: a cover with timings, then two plain relays. */
  lemma HelpTextExample()
    ensures GoodCsvOutput("1W-2-3-30-40,5,6")
  {
    TimedCoverEntry();
    SnocRelay("1W-2-3-30-40", "5", "1W-2-3-30-40,5");
    SnocRelay("1W-2-3-30-40,5", "6", "1W-2-3-30-40,5,6");
  }

  lemma TimedCoverEntry()
    ensures OutputListSpec("1W-2-3-30-40")
  {
    TimedCoverRuns();
    SingleEntryByIndex("1W-2-3-30-40", 12);
  }

  lemma TimedCoverRuns()
    ensures RunUpTo(Start, "1W-2-3-30-40", 12, true) == LastGroupMany
  {
    var s := "1W-2-3-30-40";
    assert RunUpTo(Start, s, 3, true) == CoverDash;
    assert RunUpTo(Start, s, 6, true) == LastGroupOne;
    assert RunUpTo(Start, s, 9, true) == LastGroupMany;
  }

  /** A cover with only its stop and down relays; the timings are optional. */
  lemma TwoGroupCoverAccepted()
    ensures GoodCsvOutput("1W-2-3")
  {
    assert RunUpTo(Start, "1W-2-3", 6, true) == LastGroupOne;
    SingleEntryByIndex("1W-2-3", 6);
  }

  /** Only `W` and `P` are marks. */
  lemma UnknownMarkRejected()
    ensures !GoodCsvOutput("1X-2-3")
  {
    assert RunUpTo(Start, "1X-2-3", 6, true) == Dead;
    SingleEntryByIndex("1X-2-3", 6);
  }

  // ---------------------------------------------------------------------------
  // The shape of accepted lists

  lemma {:induction false} DeadStays(s: string, glue: bool)
    ensures Run(Dead, s, glue) == Dead
    decreases |s|
  {
    if s != [] {
      DeadStays(s[..|s|-1], glue);
    }
  }

  /** An entry begins with a digit and ends with a digit or `P`. */
  lemma FieldEnds(f: string, glue: bool)
    requires FieldSpec(f, glue)
    ensures f != [] && IsDigit(f[0]) && (IsDigit(f[|f|-1]) || f[|f|-1] == 'P')
  {
    FieldAcceptedIsSpec(f, glue);
    var n := |f|;
    assert n > 0;
    AcceptedAfter(Run(Start, f[..n-1], glue), f[n-1], glue);
    if !IsDigit(f[0]) {
      NonDigitFirst(f, glue);
    }
  }

  /** Only a digit or `P` leads into an accepting state. */
  lemma AcceptedAfter(q: State, c: char, glue: bool)
    requires Accepting(Step(q, c, glue))
    ensures IsDigit(c) || c == 'P'
  {
  }

  /** An entry that does not begin with a digit is refused. */
  lemma NonDigitFirst(f: string, glue: bool)
    requires f != [] && !IsDigit(f[0])
    ensures Run(Start, f, glue) == Dead
  {
    assert [f[0]] + f[1..] == f;
    RunConcat(Start, [f[0]], f[1..], glue);
    assert [f[0]][..0] == [];
    DeadStays(f[1..], glue);
  }

  /**
   An accepted list is non-empty, starts with a digit and ends with a digit
   or `P`.
   */
  lemma OutputListShape(s: string)
    requires GoodCsvOutput(s)
    ensures s != [] && IsDigit(s[0]) && (IsDigit(s[|s|-1]) || s[|s|-1] == 'P')
  {
    var head, tail :| ListParse(s, head, tail);
    FieldEnds(head, true);
    if tail != [] {
      var t := tail[|tail|-1];
      FieldEnds(t, false);
      LastEntryEnds(head, tail, t);
    }
  }

  /** A list with comma-led entries ends where its last entry ends. */
  lemma LastEntryEnds(head: string, tail: seq<string>, t: string)
    requires tail != [] && t == tail[|tail|-1] && t != []
    ensures var s := ListText(',', head, tail); |s| > |head| && s[|s|-1] == t[|t|-1]
  {
    SepGroupsSnoc(',', tail[..|tail|-1], t);
    assert tail[..|tail|-1] + [t] == tail;
  }
}
