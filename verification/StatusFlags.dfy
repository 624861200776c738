/**
 The names of `_status/` flags: the builders that mint them, the regular-expression inverse
 that reads the model back, and the independent parser that splits a run flag into ids.
 */
module StatusFlags {
  import opened Wrappers
  import opened Text

  // ----- the builders

  datatype Family = Run | Process

  function FamilyName(f: Family): string {
    if f == Run then "c_run" else "d_process"
  }

  const MEMBER := "_member-"
  const EVENT := "_evt-"
  const COMPLETE := "_complete.flag"
  const STATUS_DIR := "_status/"

  predicate LowerChar(c: char) {
    'a' <= c <= 'z'
  }

  /** A model name: `[a-z]+`. */
  ghost predicate IsModel(m: string) {
    m != "" && forall c | c in m :: LowerChar(c)
  }

  /** The ids that `_validate_id_fragment` lets through. */
  predicate ValidId(value: string) {
    && value != ""
    && '/' !in value && '\\' !in value && ' ' !in value && '\t' !in value && '\n' !in value
    && !Contains(value, ".flag")
  }

  /** The basename of a per-member flag. */
  function MemberFlag(f: Family, model: string, member: string, event: string): string {
    FamilyName(f) + "_" + model + (MEMBER + member + (EVENT + event + COMPLETE))
  }

  /** The basename of a plain flag. */
  function PlainFlag(f: Family, model: string, event: string): string {
    FamilyName(f) + "_" + model + (EVENT + event + COMPLETE)
  }

  /** The builders: both ids are validated, in order, before the path is put together. */
  function FlagPerMember(f: Family, model: string, member: string, event: string): Result<string, string> {
    if !ValidId(member) then Err("member_id")
    else if !ValidId(event) then Err("event_id")
    else Ok(STATUS_DIR + MemberFlag(f, model, member, event))
  }

  /** The names that are built, letter by letter. */
  lemma FlagTexts(model: string, member: string, event: string)
    ensures MemberFlag(Run, model, member, event) == "c_run_" + model + "_member-" + member + "_evt-" + event + "_complete.flag"
    ensures MemberFlag(Process, model, member, event) == "d_process_" + model + "_member-" + member + "_evt-" + event + "_complete.flag"
    ensures PlainFlag(Run, model, event) == "c_run_" + model + "_evt-" + event + "_complete.flag"
    ensures PlainFlag(Process, model, event) == "d_process_" + model + "_evt-" + event + "_complete.flag"
  {
    var run, process := "c_run" + "_", "d_process" + "_";
    assert run == "c_run_" && process == "d_process_";
    Chain(run + model, member, event);
    Chain(process + model, member, event);
  }

  lemma Chain(front: string, member: string, event: string)
    ensures front + (MEMBER + member + (EVENT + event + COMPLETE))
         == front + "_member-" + member + "_evt-" + event + "_complete.flag"
    ensures front + (EVENT + event + COMPLETE) == front + "_evt-" + event + "_complete.flag"
  {
    var m, e, c := MEMBER, EVENT, COMPLETE;
    assert m == "_member-" && e == "_evt-" && c == "_complete.flag";
    hide MEMBER, EVENT, COMPLETE;
    assert front + (m + member + (e + event + c)) == front + m + member + e + event + c;
    assert front + (e + event + c) == front + e + event + c;
  }

  /** An id is let through when it is not empty and holds no slash, backslash, white space of these three kinds, or `.flag`. */
  lemma ValidIdExactly(value: string)
    ensures ValidId(value)
       <==> && value != "" && (forall i | 0 <= i < |value| :: value[i] as int !in {47, 92, 32, 9, 10})
            && !exists a, b :: value == a + ".flag" + b
  {
    ContainsMeaning(value, ".flag");
    hide Cut, Contains;
    assert '/' as int == 47 && '\\' as int == 92 && ' ' as int == 32 && '\t' as int == 9 && '\n' as int == 10;
  }

  /** What a builder returns: the flag under its directory for two valid ids, and otherwise the refusal of the first bad one. */
  lemma BuilderExactly(f: Family, model: string, member: string, event: string)
    ensures FlagPerMember(f, model, member, event)
         == if !ValidId(member) then Err("member_id")
            else if ValidId(event) then Ok("_status/" + MemberFlag(f, model, member, event)) else Err("event_id")
  {
  }

  // ----- the grammar

  /** Text that `.+` matches. */
  predicate Some1(s: string) {
    s != "" && '\n' !in s
  }

  /** What may follow the model: an event part, or a member part and an event part. */
  ghost predicate EventTail(t: string) {
    exists event :: Some1(event) && t == EVENT + event + COMPLETE
  }

  ghost predicate Tail(t: string) {
    EventTail(t) || exists member, rest :: Some1(member) && EventTail(rest) && t == MEMBER + member + rest
  }

  /** `$` also matches in front of a final line feed. */
  ghost predicate InGrammar(name: string, f: Family, model: string) {
    && IsModel(model)
    && exists t, end :: Tail(t) && (end == "" || end == "\n") && name == FamilyName(f) + "_" + model + (t + end)
  }

  ghost predicate Bears(name: string) {
    FamilyName(Run) + "_" <= name || FamilyName(Process) + "_" <= name
  }

  // ----- the regular-expression inverse

  datatype ReadError = NotABasename | OutsideGrammar

  /** The longest run of lower-case letters at the start, and the rest. */
  function LowerRun(t: string): (r: (string, string))
    ensures t == r.0 + r.1
  {
    if t == "" || !LowerChar(t[0]) then ("", t)
    else
      var (a, b) := LowerRun(t[1..]);
      ([t[0]] + a, b)
  }

  lemma {:induction false} LowerRunOf(model: string, rest: string)
    requires (forall c | c in model :: LowerChar(c)) && (rest == "" || !LowerChar(rest[0]))
    ensures LowerRun(model + rest) == (model, rest)
  {
    if model == "" {
      assert model + rest == rest;
    } else {
      assert (model + rest)[1..] == model[1..] + rest;
      LowerRunOf(model[1..], rest);
      assert model == [model[0]] + model[1..];
    }
  }

  /** The family a name starts with, and what follows the underscore. */
  function FamilyOf(name: string): Option<(Family, string)> {
    if "c_run_" <= name then Some((Run, name[6..]))
    else if "d_process_" <= name then Some((Process, name[10..]))
    else None
  }

  /** The model group of the pattern, when the whole pattern matches. */
  ghost function MatchedModel(name: string): Option<string> {
    match FamilyOf(name)
    case None => None
    case Some((_, rest)) =>
      var (model, tail) := LowerRun(rest);
      if model != "" && exists t, end :: Tail(t) && (end == "" || end == "\n") && tail == t + end then Some(model) else None
  }

  /** The model a flag basename was minted for; None for a family without one; an error for a name it cannot attribute. */
  ghost function ModelTypeFromFlagName(name: string): Result<Option<string>, ReadError> {
    if '/' in name then Err(NotABasename)
    else if MatchedModel(name).Some? then Ok(MatchedModel(name))
    else if Bears(name) then Err(OutsideGrammar)
    else Ok(None)
  }

  lemma FamilyOfName(f: Family, rest: string)
    ensures FamilyOf(FamilyName(f) + "_" + rest) == Some((f, rest))
  {
    var name := FamilyName(f) + "_" + rest;
    if f == Run {
      assert name == "c_run_" + rest;
    } else {
      assert name == "d_process_" + rest;
      assert name[0] == 'd';
    }
  }

  lemma TailHead(t: string)
    requires Tail(t)
    ensures t != "" && t[0] == '_'
  {
  }

  /** A name in the grammar is attributed to its model: the longest run of letters is the only candidate. */
  lemma GrammarIsMatched(name: string, f: Family, model: string)
    requires InGrammar(name, f, model)
    ensures MatchedModel(name) == Some(model) && FamilyOf(name).Some? && FamilyOf(name).value.0 == f
  {
    var t, end :| Tail(t) && (end == "" || end == "\n") && name == FamilyName(f) + "_" + model + (t + end);
    TailHead(t);
    assert name == FamilyName(f) + "_" + (model + (t + end));
    FamilyOfName(f, model + (t + end));
    LowerRunOf(model, t + end);
  }

  lemma {:induction false} LowerRunIsLower(t: string)
    ensures forall c | c in LowerRun(t).0 :: LowerChar(c)
  {
    if t != "" && LowerChar(t[0]) { LowerRunIsLower(t[1..]); }
  }

  lemma MatchedIsGrammar(name: string)
    requires MatchedModel(name).Some?
    ensures Bears(name) && InGrammar(name, FamilyOf(name).value.0, MatchedModel(name).value)
  {
    var (f, rest) := FamilyOf(name).value;
    var (model, tail) := LowerRun(rest);
    LowerRunIsLower(rest);
    assert name == FamilyName(f) + "_" + rest;
    var t, end :| Tail(t) && (end == "" || end == "\n") && tail == t + end;
    assert name == FamilyName(f) + "_" + model + (t + end);
  }

  /**
   The reader against the grammar, for every basename: a model exactly for the names of the
   grammar, and that model is unique; an error exactly for the other names with a family
   prefix; none exactly for the names without one.
   */
  lemma ReaderExact(name: string)
    requires '/' !in name
    ensures var r := ModelTypeFromFlagName(name);
            && (forall model :: r == Ok(Some(model)) <==> exists f :: InGrammar(name, f, model))
            && (r == Err(OutsideGrammar) <==> Bears(name) && !exists f, model :: InGrammar(name, f, model))
            && (r == Ok(None) <==> !Bears(name))
  {
    if MatchedModel(name).Some? { MatchedIsGrammar(name); }
    forall f, model | InGrammar(name, f, model) ensures MatchedModel(name) == Some(model) && Bears(name) {
      GrammarIsMatched(name, f, model);
      MatchedIsGrammar(name);
    }
  }

  /** The reader inverts both shapes of both builders, whatever the ids hold. */
  lemma ReaderInvertsBuilders(f: Family, model: string, member: string, event: string)
    requires IsModel(model) && ValidId(member) && ValidId(event)
    ensures ModelTypeFromFlagName(MemberFlag(f, model, member, event)) == Ok(Some(model))
    ensures ModelTypeFromFlagName(PlainFlag(f, model, event)) == Ok(Some(model))
  {
    var rest := EVENT + event + COMPLETE;
    assert Some1(event) && EventTail(rest);
    assert Tail(rest) && Tail(MEMBER + member + rest);
    var plain, perMember := PlainFlag(f, model, event), MemberFlag(f, model, member, event);
    assert plain == FamilyName(f) + "_" + model + (rest + "");
    assert perMember == FamilyName(f) + "_" + model + (MEMBER + member + rest + "");
    assert InGrammar(plain, f, model) && InGrammar(perMember, f, model);
    GrammarIsMatched(plain, f, model);
    GrammarIsMatched(perMember, f, model);
    NoSlash(f, model, member, event);
  }

  lemma NoSlash(f: Family, model: string, member: string, event: string)
    requires IsModel(model) && '/' !in member && '/' !in event
    ensures '/' !in MemberFlag(f, model, member, event) && '/' !in PlainFlag(f, model, event)
  {
    assert '/' !in model by { assert !LowerChar('/'); }
    assert '/' !in FamilyName(f) + "_" && '/' !in MEMBER && '/' !in EVENT && '/' !in COMPLETE;
  }

  // ----- the split-based parser of run flags

  datatype Sim = Sim(member: string, event: Option<string>)

  /** `name[len("c_run_"):-len("_complete.flag")]` of a name with that prefix and suffix. */
  function Core(name: string): string {
    if |name| >= 20 then name[6..|name| - 14] else ""
  }

  /** One name: skipped, a sim, or the unpacking error of a member part without an event part. */
  function ParseSim(name: string): Result<Option<Sim>, string> {
    if !("c_run_" <= name && EndsWith(name, COMPLETE)) then Ok(None)
    else
      var core := Core(name);
      if Contains(core, MEMBER) && Contains(core, EVENT) then
        var memberPart := Cut(core, MEMBER).value.1;
        match Cut(memberPart, EVENT)
        case Some((member, event)) => Ok(Some(Sim(member, Some(event))))
        case None => Err(name)
      else Ok(Some(Sim(core, None)))
  }

  /** The sims of a listing, or the first name that stops the parser. */
  function Sims(names: seq<string>): Result<seq<Sim>, string> {
    if names == [] then Ok([])
    else
      var n := |names| - 1;
      match Sims(names[..n])
      case Err(e) => Err(e)
      case Ok(before) =>
        match ParseSim(names[n])
        case Err(e) => Err(e)
        case Ok(None) => Ok(before)
        case Ok(Some(sim)) => Ok(before + [sim])
  }

  /** A name is passed over exactly when it lacks the family's prefix or the suffix. */
  lemma SkippedExactly(name: string)
    ensures ParseSim(name) == Ok(None) <==> !("c_run_" <= name && exists a :: name == a + "_complete.flag")
  {
    EndsWithExactly(name, COMPLETE);
    assert COMPLETE == "_complete.flag";
    hide Cut, EndsWith, Contains, COMPLETE;
  }

  /**
   A name between prefix and suffix, read off its text. Without both delimiters the whole of it is a sim
   with no event; with both it is cut at the first member delimiter and then at the first event delimiter
   behind that, and is an error when there is none there.
   */
  lemma ParseExactly(core: string, member: string, event: string)
    ensures var r, both := ParseSim("c_run_" + core + "_complete.flag"), Contains(core, "_member-") && Contains(core, "_evt-");
            && (r == Ok(Some(Sim(core, None))) <==> !both)
            && (r == Ok(Some(Sim(member, Some(event)))) <==>
                  both && exists x :: core == x + "_member-" + (member + "_evt-" + event) && !Contains(x, "_member-") && !Contains(member, "_evt-"))
            && (r.Err? <==>
                  both && exists x, rest :: core == x + "_member-" + rest && !Contains(x, "_member-") && !Contains(rest, "_evt-"))
  {
    var name := "c_run_" + core + "_complete.flag";
    assert COMPLETE == "_complete.flag" && MEMBER == "_member-" && EVENT == "_evt-";
    CoreOf(name, core);
    Delimiters();
    hide MEMBER, EVENT, COMPLETE, Core, EndsWith, Cut;
    if Contains(core, MEMBER) {
      var (x, rest) := Cut(core, MEMBER).value;
      CutHeadLacks(core, MEMBER);
      if Contains(rest, EVENT) { CutHeadLacks(rest, EVENT); }
      forall y, z | core == y + MEMBER + z && !Contains(y, MEMBER) ensures y == x && z == rest { CutAt(y, MEMBER, z); }
      if rest == member + EVENT + event && !Contains(member, EVENT) { CutAt(member, EVENT, event); }
    }
  }

  /** The listing goes name by name, in order, and stops at the first one that cannot be read. */
  lemma {:induction false} SimsInOrder(a: seq<string>, b: seq<string>)
    ensures Sims(a).Err? ==> Sims(a + b) == Sims(a)
    ensures Sims(a).Ok? && Sims(b).Err? ==> Sims(a + b) == Sims(b)
    ensures Sims(a).Ok? && Sims(b).Ok? ==> Sims(a + b) == Ok(Sims(a).value + Sims(b).value)
    decreases |b|
  {
    hide ParseSim;
    if b == [] {
      assert a + b == a && Sims(b) == Ok([]);
      if Sims(a).Ok? { assert Sims(a).value + [] == Sims(a).value; }
    } else {
      var n := |b| - 1;
      assert (a + b)[..|a| + n] == a + b[..n];
      SimsInOrder(a, b[..n]);
      if Sims(a).Ok? && Sims(b).Ok? && ParseSim(b[n]).value.Some? {
        var before, sim := Sims(b[..n]).value, ParseSim(b[n]).value.value;
        assert Sims(a).value + (before + [sim]) == (Sims(a).value + before) + [sim];
      }
    }
  }

  lemma OneSim(name: string)
    ensures Sims([name]) == match ParseSim(name)
                            case Err(e) => Err(e)
                            case Ok(None) => Ok([])
                            case Ok(Some(sim)) => Ok([sim])
  {
    hide ParseSim;
    var names: seq<string> := [name];
    assert names[..0] == [] && names[0] == name;
    assert Sims([]) == Ok([]);
    if ParseSim(name).Ok? && ParseSim(name).value.Some? {
      assert [] + [ParseSim(name).value.value] == [ParseSim(name).value.value];
    }
  }

  method CompletedSims(names: seq<string>) returns (r: Result<seq<Sim>, string>)
    ensures r == Sims(names)
  {
    var sims := [];
    for i := 0 to |names|
      invariant Sims(names[..i]) == Ok(sims)
    {
      assert names[..i + 1][..i] == names[..i];
      var parsed := ParseSim(names[i]);
      if parsed.Err? {
        SimsStop(names, i + 1);
        return Err(parsed.error);
      }
      if parsed.value.Some? {
        sims := sims + [parsed.value.value];
      }
    }
    assert names[..|names|] == names;
    return Ok(sims);
  }

  lemma {:induction false} SimsStop(names: seq<string>, i: nat)
    requires i <= |names| && Sims(names[..i]).Err?
    ensures Sims(names) == Sims(names[..i])
    decreases |names|
  {
    if i < |names| {
      var front := names[..|names| - 1];
      assert front[..i] == names[..i];
      SimsStop(front, i);
    } else {
      assert names[..i] == names;
    }
  }

  /** What the proofs need of the delimiters. */
  lemma Delimiters()
    ensures HeadUnique(MEMBER) && HeadUnique(EVENT) && '_' in MEMBER && '-' in EVENT
  {
    assert EVENT[4] == '-' && MEMBER[0] == '_';
  }

  /** The text between prefix and suffix of a member flag. */
  function MemberCore(model: string, member: string, event: string): string {
    model + MEMBER + (member + EVENT + event)
  }

  lemma FlagShape(f: Family, model: string, member: string, event: string)
    ensures MemberFlag(f, model, member, event) == FamilyName(f) + "_" + (MemberCore(model, member, event) + COMPLETE)
  {
    hide MEMBER, EVENT, COMPLETE, FamilyName;
  }

  lemma CoreOf(name: string, core: string)
    requires name == "c_run_" + core + COMPLETE
    ensures "c_run_" <= name && EndsWith(name, COMPLETE) && Core(name) == core
  {
  }

  /** A flag's text between prefix and suffix, cut at the first member delimiter. */
  lemma CutMember(model: string, rest: string)
    requires IsModel(model)
    ensures Cut(model + MEMBER + rest, MEMBER) == Some((model, rest))
  {
    assert !LowerChar('_') && '_' in MEMBER;
    LacksChar(model, MEMBER, '_');
    CutAt(model, MEMBER, rest);
  }

  /**
   The parser recovers member and event from a run flag exactly when the member id does not
   hold the event delimiter; otherwise it cuts the member id short.
   */
  lemma ParserInvertsExactly(model: string, member: string, event: string)
    requires IsModel(model)
    ensures ParseSim(MemberFlag(Run, model, member, event)) == Ok(Some(Sim(member, Some(event)))) <==> !Contains(member, EVENT)
  {
    var name := MemberFlag(Run, model, member, event);
    FlagShape(Run, model, member, event);
    assert name == "c_run_" + MemberCore(model, member, event) + COMPLETE;
    CoreOf(name, MemberCore(model, member, event));
    CutCore(model, member, event);
  }

  /** Cutting the core twice, first at the member and then at the event delimiter. */
  lemma CutCore(model: string, member: string, event: string)
    requires IsModel(model)
    ensures var core := MemberCore(model, member, event);
            && Cut(core, MEMBER) == Some((model, member + EVENT + event))
            && Contains(core, EVENT)
    ensures Cut(member + EVENT + event, EVENT).Some?
    ensures Cut(member + EVENT + event, EVENT) == Some((member, event)) <==> !Contains(member, EVENT)
  {
    hide MEMBER, EVENT, Cut;
    var memberPart := member + EVENT + event;
    CutMember(model, memberPart);
    CutEvent(member, event);
    assert MemberCore(model, member, event) == (model + MEMBER + member) + EVENT + event;
    Occurs(model + MEMBER + member, EVENT, event);
  }

  lemma CutEvent(member: string, event: string)
    ensures Cut(member + EVENT + event, EVENT).Some?
    ensures Cut(member + EVENT + event, EVENT) == Some((member, event)) <==> !Contains(member, EVENT)
  {
    Delimiters();
    hide EVENT, Cut;
    if Contains(member, EVENT) {
      CutInFront(member, EVENT, EVENT + event);
      assert member + EVENT + event == member + (EVENT + event);
      assert |Cut(member, EVENT).value.0| < |member|;
    } else {
      CutAt(member, EVENT, event);
    }
  }

  /** The loader's charset for member ids holds no `-`, which is enough. */
  lemma NoDashRecovers(model: string, member: string, event: string)
    requires IsModel(model) && '-' !in member
    ensures ParseSim(MemberFlag(Run, model, member, event)) == Ok(Some(Sim(member, Some(event))))
  {
    assert '-' == EVENT[4] && '-' in EVENT;
    LacksChar(member, EVENT, '-');
    ParserInvertsExactly(model, member, event);
  }

  /** Two member flags with the same name come from the same family, model, member and event when no member id holds the event delimiter. */
  lemma BuildersInjective(f: Family, model: string, member: string, event: string,
                          f': Family, model': string, member': string, event': string)
    requires IsModel(model) && IsModel(model')
    requires !Contains(member, EVENT) && !Contains(member', EVENT)
    requires MemberFlag(f, model, member, event) == MemberFlag(f', model', member', event')
    ensures f == f' && model == model' && member == member' && event == event'
  {
    hide MEMBER, EVENT, COMPLETE, FamilyName;
    var core, core' := MemberCore(model, member, event), MemberCore(model', member', event');
    FlagShape(f, model, member, event);
    FlagShape(f', model', member', event');
    FamilyOfName(f, core + COMPLETE);
    FamilyOfName(f', core' + COMPLETE);
    DropEnd(core, core', COMPLETE);
    CutCore(model, member, event);
    CutCore(model', member', event');
  }

  lemma DropEnd(a: string, b: string, end: string)
    requires a + end == b + end
    ensures a == b
  {
    assert (a + end)[..|a|] == a && (b + end)[..|b|] == b;
  }

  /** One pair of ids is the other with the boundary moved from one event delimiter to a later one. */
  ghost predicate Shifted(member: string, event: string, member': string, event': string) {
    exists x :: member' == member + EVENT + x && event == x + EVENT + event'
  }

  /** Two ways to cut one text at the delimiter are the same way, or one is a shift of the other. */
  lemma CutsShift(member: string, event: string, member': string, event': string)
    requires member + EVENT + event == member' + EVENT + event' && |member| < |member'|
    ensures Shifted(member, event, member', event')
  {
    var t := member + EVENT + event;
    var n := |EVENT|;
    Delimiters();
    assert t[|member|] == EVENT[0] && forall i | 0 <= i < n :: t[|member| + i] == EVENT[i];
    assert t == member' + EVENT + event' && t[|member'|] == EVENT[0];
    forall i | 0 < i < n ensures EVENT[i] != EVENT[0] { assert EVENT[i] == EVENT[1..][i - 1]; }
    assert |member'| >= |member| + n;
    hide EVENT;
    var x := t[|member| + n..|member'|];
    assert member' == t[..|member'|] && t[..|member|] == member && t[|member|..|member| + n] == EVENT;
    assert member' == member + EVENT + x;
    assert t[|member| + n..] == event;
    assert event == x + EVENT + event' by {
      assert t[|member'|..] == EVENT + event';
      assert event == x + t[|member'|..];
    }
  }

  /** Shifting the boundary does not change the text. */
  lemma ShiftKeepsFlag(f: Family, model: string, member: string, event: string, member': string, event': string)
    requires Shifted(member, event, member', event')
    ensures MemberFlag(f, model, member, event) == MemberFlag(f, model, member', event')
  {
    var x :| member' == member + EVENT + x && event == x + EVENT + event';
    hide MEMBER, EVENT, COMPLETE, FamilyName;
    assert MEMBER + member + (EVENT + event + COMPLETE) == MEMBER + (member + EVENT + x) + (EVENT + event' + COMPLETE);
  }

  /**
   When two member flags coincide: for the same family and model, and the same ids or ids that
   differ by moving the boundary between them to another event delimiter. No other pair of sims
   shares a flag, and these do, whatever the builders let through.
   */
  lemma FlagsCoincideExactly(f: Family, model: string, member: string, event: string,
                             f': Family, model': string, member': string, event': string)
    requires IsModel(model) && IsModel(model')
    ensures MemberFlag(f, model, member, event) == MemberFlag(f', model', member', event')
       <==> && f == f' && model == model'
            && ((member == member' && event == event')
                || Shifted(member, event, member', event') || Shifted(member', event', member, event))
  {
    hide MEMBER, EVENT, COMPLETE, FamilyName, Shifted;
    if MemberFlag(f, model, member, event) == MemberFlag(f', model', member', event') {
      SameParts(f, model, member, event, f', model', member', event');
      if |member| < |member'| {
        CutsShift(member, event, member', event');
      } else if |member'| < |member| {
        CutsShift(member', event', member, event);
      } else {
        SameLength(member, EVENT + event, member', EVENT + event');
        SameLength(EVENT, event, EVENT, event');
      }
    }
    if f == f' && model == model' {
      if Shifted(member, event, member', event') { ShiftKeepsFlag(f, model, member, event, member', event'); }
      if Shifted(member', event', member, event) { ShiftKeepsFlag(f, model, member', event', member, event); }
    }
  }

  lemma SameLength(a: string, b: string, a': string, b': string)
    requires a + b == a' + b' && |a| == |a'|
    ensures a == a' && b == b'
  {
    assert (a + b)[..|a|] == a && (a' + b')[..|a'|] == a';
    assert (a + b)[|a|..] == b && (a' + b')[|a'|..] == b';
  }

  /** Equal flags have the same family, the same model, and the same text behind the member delimiter. */
  lemma SameParts(f: Family, model: string, member: string, event: string,
                  f': Family, model': string, member': string, event': string)
    requires IsModel(model) && IsModel(model')
    requires MemberFlag(f, model, member, event) == MemberFlag(f', model', member', event')
    ensures f == f' && model == model' && member + EVENT + event == member' + EVENT + event'
    ensures member + (EVENT + event) == member' + (EVENT + event')
  {
    hide MEMBER, EVENT, COMPLETE, FamilyName, Cut, IsModel;
    var core, core' := MemberCore(model, member, event), MemberCore(model', member', event');
    FlagShape(f, model, member, event);
    FlagShape(f', model', member', event');
    FamilyOfName(f, core + COMPLETE);
    FamilyOfName(f', core' + COMPLETE);
    DropEnd(core, core', COMPLETE);
    CutCore(model, member, event);
    CutCore(model', member', event');
    assert member + EVENT + event == member + (EVENT + event);
    assert member' + EVENT + event' == member' + (EVENT + event');
  }

  lemma ValidWithoutDot(id: string)
    requires id != "" && '/' !in id && '\\' !in id && ' ' !in id && '\t' !in id && '\n' !in id && '.' !in id
    ensures ValidId(id)
  {
    LacksChar(id, ".flag", '.');
  }

  /** Two sims with four valid ids: the builder accepts both pairs and makes one flag of them. */
  lemma DelimiterInMemberCollides()
    ensures FlagPerMember(Run, "triton", "a_evt-b", "c").Ok?
    ensures FlagPerMember(Run, "triton", "a_evt-b", "c") == FlagPerMember(Run, "triton", "a", "b_evt-c")
    ensures Contains("a_evt-b", EVENT)
  {
    hide MEMBER, EVENT, COMPLETE, FamilyName, Cut, ValidId, STATUS_DIR;
    ShortIds();
    Occurs("a", EVENT, "b");
    Regrouped("a", "b", "c");
  }

  lemma ShortIds()
    ensures ValidId("a_evt-b") && ValidId("c") && ValidId("a") && ValidId("b_evt-c")
    ensures "a_evt-b" == "a" + EVENT + "b" && "b_evt-c" == "b" + EVENT + "c"
  {
    hide Cut;
    ValidWithoutDot("a_evt-b");
    ValidWithoutDot("c");
    ValidWithoutDot("a");
    ValidWithoutDot("b_evt-c");
  }

  lemma Regrouped(a: string, b: string, c: string)
    ensures MemberFlag(Run, "triton", a + EVENT + b, c) == MemberFlag(Run, "triton", a, b + EVENT + c)
  {
    hide MEMBER, EVENT, COMPLETE, FamilyName;
    assert a + EVENT + b + (EVENT + c + COMPLETE) == a + (EVENT + (b + EVENT + c) + COMPLETE);
    var front := FamilyName(Run) + "_" + "triton";
    assert MEMBER + (a + EVENT + b) + (EVENT + c + COMPLETE) == MEMBER + a + (EVENT + (b + EVENT + c) + COMPLETE);
  }

  /**
   What the parser makes of a plain flag, for every model and event id: the text between prefix and
   suffix as a sim without event, unless the event id holds the member delimiter. Then it is read
   as a member flag, and the listing stops exactly when no event delimiter follows.
   */
  lemma PlainFlagParsed(model: string, event: string)
    requires IsModel(model)
    ensures var parsed := ParseSim(PlainFlag(Run, model, event));
            match Cut(event, MEMBER)
            case None => parsed == Ok(Some(Sim(model + EVENT + event, None)))
            case Some((_, after)) =>
              match Cut(after, EVENT)
              case None => parsed.Err?
              case Some((member, rest)) => parsed == Ok(Some(Sim(member, Some(rest))))
  {
    var core := model + EVENT + event;
    PlainCore(model, event);
    Delimiters();
    hide MEMBER, EVENT, COMPLETE, FamilyName, Cut, IsModel, Core, EndsWith;
    Occurs(model, EVENT, event);
    match Cut(event, MEMBER) {
      case None =>
        NoMemberInFront(model, event);
      case Some((before, after)) =>
        CutHeadLacks(event, MEMBER);
        NoMemberInFront(model, before);
        MemberBeforeNoEvent(model, before, after);
        assert core == model + EVENT + before + MEMBER + after;
    }
  }

  /** The listing stops at a plain flag exactly when its event id holds the member delimiter and no event delimiter after it. */
  lemma PlainFlagStopsParser(model: string, event: string)
    requires IsModel(model)
    ensures ParseSim(PlainFlag(Run, model, event)).Err?
       <==> Contains(event, MEMBER) && !Contains(Cut(event, MEMBER).value.1, EVENT)
  {
    PlainFlagParsed(model, event);
    hide MEMBER, EVENT, Cut, ParseSim;
  }

  /** A valid event id that stops it. */
  lemma StoppingEvent()
    ensures ValidId("a_member-b") && ParseSim(PlainFlag(Run, "triton", "a_member-b")).Err?
    ensures Sims([PlainFlag(Run, "triton", "a_member-b")]).Err?
  {
    StoppingParts();
    Delimiters();
    hide MEMBER, EVENT, COMPLETE, FamilyName, Cut, ValidId, ParseSim, PlainFlag;
    PlainFlagStopsParser("triton", "a_member-b");
    CutAt("a", MEMBER, "b");
    var names := [PlainFlag(Run, "triton", "a_member-b")];
    assert names[..0] == [];
    assert Sims([]) == Ok([]);
  }

  lemma StoppingParts()
    ensures ValidId("a_member-b") && IsModel("triton") && "a_member-b" == "a" + MEMBER + "b"
    ensures !Contains("a", MEMBER) && !Contains("b", EVENT)
  {
    hide Cut, ValidId, Contains;
    StoppingIdValid();
    TritonIsModel();
    Delimiters();
    LacksChar("a", MEMBER, '_');
    LacksChar("b", EVENT, '-');
  }

  lemma StoppingIdValid()
    ensures ValidId("a_member-b")
  {
    hide Cut, ValidId;
    ValidWithoutDot("a_member-b");
  }

  lemma TritonIsModel()
    ensures IsModel("triton")
  {
  }

  lemma PlainCore(model: string, event: string)
    ensures var name := PlainFlag(Run, model, event);
            "c_run_" <= name && EndsWith(name, COMPLETE) && Core(name) == model + EVENT + event
  {
    var name, core := PlainFlag(Run, model, event), model + EVENT + event;
    assert name == "c_run_" + core + COMPLETE by {
      assert FamilyName(Run) + "_" == "c_run_";
      hide EVENT, COMPLETE, FamilyName;
    }
    CoreOf(name, core);
  }

  lemma MemberBeforeNoEvent(model: string, before: string, after: string)
    requires !Contains(model + EVENT + before, MEMBER)
    ensures var core := model + EVENT + before + MEMBER + after;
            Contains(core, EVENT) && Cut(core, MEMBER) == Some((model + EVENT + before, after))
  {
    Delimiters();
    hide MEMBER, EVENT, Cut;
    Occurs(model, EVENT, before + MEMBER + after);
    assert model + EVENT + before + MEMBER + after == model + EVENT + (before + MEMBER + after);
    CutAt(model + EVENT + before, MEMBER, after);
  }

  lemma NoMemberInFront(model: string, before: string)
    requires IsModel(model) && !Contains(before, MEMBER)
    ensures !Contains(model + EVENT + before, MEMBER)
  {
    var t := model + EVENT + before;
    var r := Cut(t, MEMBER);
    if r.Some? {
      var (a, b) := r.value;
      assert t == a + MEMBER + b;
      var k := |model| + 5;
      assert t[k..] == before;
      assert forall i | 0 <= i < |model| :: t[i] == model[i] && model[i] in model;
      assert t[|model| + 1] == 'e' && t[|model| + 2] == 'v' && t[|model| + 3] == 't' && t[|model| + 4] == '-';
      assert t[|a|] == '_' && t[|a| + 1] == 'm';
      assert |a| >= k;
      assert before == a[k..] + MEMBER + b;
      Occurs(a[k..], MEMBER, b);
    }
  }
}
