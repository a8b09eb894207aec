/** `computeRecommendations`: five fixed rules over answers found through
    their question labels, a fallback when none fires, sorted by descending
    score. */
module Recommendations {
  import opened Wrappers
  import opened Answers
  import opened Fields
  import JsString
  import StableSort

  const PainLabel := "Pain points"
  const VolumeLabel := "Volumen mensual (USD)"
  const BudgetLabel := "Presupuesto / Ticket medio (USD)"
  const InstrumentsLabel := "Instrumentos principales"
  const ClientTypeLabel := "Tipo de cliente (IB / Copytrader / Cuenta)"

  /** From trimmed question label to field id. */
  type LabelMap = map<string, string>

  /** `get(label)`: the answer of the field the label map names, or
      `undefined` when the label is unknown or mapped to an empty id. */
  function Get(answers: Answers, labelMap: LabelMap, caption: string): Value {
    var key := JsString.Trim(caption);
    if key in labelMap && labelMap[key] != "" && labelMap[key] in answers
    then answers[labelMap[key]]
    else Undefined
  }

  /** The reference lookup of the test: the answer of the first field whose
      trimmed label equals the trimmed label; no template, no such field or
      no such answer give `undefined`. */
  function GetByTemplate(answers: Answers, tpl: Option<Template>, caption: string): Value {
    if tpl.None? then Undefined
    else match FirstWithLabel(tpl.value.fields, JsString.Trim(caption))
      case None => Undefined
      case Some(f) => if f.id in answers then answers[f.id] else Undefined
  }

  /** The first field whose trimmed label is the key. */
  function FirstWithLabel(fields: seq<Field>, key: string): (r: Option<Field>)
    ensures r.Some? ==> r.value in fields && JsString.Trim(r.value.caption) == key
    ensures r.None? ==> forall f :: f in fields ==> JsString.Trim(f.caption) != key
  {
    if fields == [] then None
    else if JsString.Trim(fields[0].caption) == key then Some(fields[0])
    else FirstWithLabel(fields[1..], key)
  }

  /** The value, or the default when it is `null` or `undefined`. */
  function Coalesce(v: Value, d: Value): Value {
    if v.Undefined? || v.Null? then d else v
  }

  /** The value's items when it is an array, no items otherwise. */
  function ListOr(v: Value): seq<string> {
    if v.List? then v.items else []
  }

  /** `Number(s)` for a string, `None` standing for `NaN`: white space
      around the text is ignored, blank text is 0 and a run of decimal
      digits is its value. */
  function StringToNumber(s: string): Option<int> {
    var t := JsString.Trim(s);
    if t == [] then Some(0)
    else if forall i :: 0 <= i < |t| ==> JsString.IsDigit(t[i]) then Some(JsString.DigitsValue(t))
    else None
  }

  /** `Number(v)`, `None` standing for `NaN`. An array converts through its
      comma-joined text, so only the empty and one-element arrays can give a
      number. */
  function ToNumber(v: Value): Option<int> {
    match v
    case Undefined => None
    case Null => Some(0)
    case Num(n) => Some(n)
    case Str(s) => StringToNumber(s)
    case List(xs) => if xs == [] then Some(0) else if |xs| == 1 then StringToNumber(xs[0]) else None
  }

  function IntToString(n: int): string {
    if n < 0 then "-" + JsString.NatToString(-n) else JsString.NatToString(n)
  }

  /** `String(v)`: the text a value converts to. */
  function ToText(v: Value): string {
    match v
    case Undefined => "undefined"
    case Null => "null"
    case Num(n) => IntToString(n)
    case Str(s) => s
    case List(xs) => JsString.Join(xs, ',')
  }

  /** What the rules look at, read once from the answers. */
  datatype Signals = Signals(
    pain: seq<string>, volume: Option<int>, budget: Option<int>,
    instruments: seq<string>, clientType: string)

  /** The five readings of the source, through a label lookup. */
  function ReadSignals(lookup: string -> Value): Signals {
    Signals(
      ListOr(lookup(PainLabel)),
      ToNumber(Coalesce(lookup(VolumeLabel), Num(0))),
      ToNumber(Coalesce(lookup(BudgetLabel), Num(0))),
      ListOr(lookup(InstrumentsLabel)),
      ToText(Coalesce(lookup(ClientTypeLabel), Str(""))))
  }

  /** The signals as `computeRecommendations(answers, labelMap)` reads them. */
  function SignalsOf(answers: Answers, labelMap: LabelMap): Signals {
    ReadSignals(caption => Get(answers, labelMap, caption))
  }

  /** The reason shown with a recommendation. The volume rule's reason embeds
      `vol.toLocaleString()`, which depends on the locale, so it is kept as
      the volume it formats. */
  datatype Reason = Fixed(text: string) | VolumeAbout(volume: int)

  /** A recommendation. `mk` stores `${title}-${score}` as its id; the id is
      determined by the other two fields, so it is kept as a derived member. */
  datatype Recommendation = Recommendation(title: string, reason: Reason, score: nat) {
    function Id(): string { title + "-" + JsString.NatToString(score) }
  }

  /** The five rules, in the order the source evaluates them. */
  datatype Rule = LowSpreads | FastServer | EcnRebate | CopyPro | GoldRoutes

  const AllRules: seq<Rule> := [LowSpreads, FastServer, EcnRebate, CopyPro, GoldRoutes]

  predicate Fires(rule: Rule, s: Signals) {
    match rule
    case LowSpreads => "spreads altos" in s.pain
    case FastServer => "ejecución lenta" in s.pain
    case EcnRebate => s.volume.Some? && s.volume.value >= 50000
    case CopyPro => s.budget.Some? && s.budget.value >= 5000 && s.clientType == "Copytrader"
    case GoldRoutes => "XAU" in s.instruments
  }

  function Title(rule: Rule): string {
    match rule
    case LowSpreads => "Plan Spreads Bajos"
    case FastServer => "Servidor Pro + VPS"
    case EcnRebate => "Cuenta ECN + Rebate"
    case CopyPro => "Programa Copy Pro"
    case GoldRoutes => "Rutas XAU baja latencia"
  }

  function Score(rule: Rule): nat {
    match rule
    case LowSpreads => 20
    case FastServer => 18
    case EcnRebate => 25
    case CopyPro => 22
    case GoldRoutes => 12
  }

  function ReasonFor(rule: Rule, s: Signals): Reason {
    match rule
    case LowSpreads => Fixed("Reporta spreads altos")
    case FastServer => Fixed("Menor latencia")
    case EcnRebate => VolumeAbout(s.volume.GetOr(0))
    case CopyPro => Fixed("Copytrader con presupuesto")
    case GoldRoutes => Fixed("Opera oro")
  }

  /** `mk(title, reason, score)` for a rule. */
  function RecommendationFor(rule: Rule, s: Signals): Recommendation {
    Recommendation(Title(rule), ReasonFor(rule, s), Score(rule))
  }

  const OnboardingTitle := "Onboarding + Diagnóstico"

  const Onboarding := Recommendation(OnboardingTitle, Fixed("Sin señales fuertes"), 8)

  /** What one rule pushes: its recommendation when it fires, else nothing. */
  function Pushed(rule: Rule, s: Signals): seq<Recommendation> {
    if Fires(rule, s) then [RecommendationFor(rule, s)] else []
  }

  /** The recommendations of the rules that fire, in rule order. */
  function FiredFrom(rules: seq<Rule>, s: Signals): seq<Recommendation> {
    if rules == [] then [] else Pushed(rules[0], s) + FiredFrom(rules[1..], s)
  }

  function Fired(s: Signals): seq<Recommendation> { FiredFrom(AllRules, s) }

  /** The onboarding entry alone when no rule fired; the fired list
      otherwise. */
  function WithFallback(recs: seq<Recommendation>): seq<Recommendation> {
    if recs == [] then [Onboarding] else recs
  }

  /** The sort key of `(a, b) => b.score - a.score`. */
  function ByScore(r: Recommendation): seq<int> { [-(r.score as int)] }

  /** The engine's result for the given signals. */
  function Recommend(s: Signals): seq<Recommendation> {
    StableSort.SortBy(WithFallback(Fired(s)), ByScore)
  }

  /** The five `if (…) recs.push(mk(…))` statements of
      `computeRecommendations`, in source order. */
  method PushFired(s: Signals) returns (pushed: seq<Recommendation>)
    ensures pushed == Fired(s)
  {
    pushed := [];
    if "spreads altos" in s.pain {
      pushed := pushed + [RecommendationFor(LowSpreads, s)];
    }
    ghost var p1 := pushed;
    assert p1 == Pushed(LowSpreads, s);
    if "ejecución lenta" in s.pain {
      pushed := pushed + [RecommendationFor(FastServer, s)];
    }
    ghost var p2 := pushed;
    assert p2 == p1 + Pushed(FastServer, s);
    if s.volume.Some? && s.volume.value >= 50000 {
      pushed := pushed + [RecommendationFor(EcnRebate, s)];
    }
    ghost var p3 := pushed;
    assert p3 == p2 + Pushed(EcnRebate, s);
    if s.budget.Some? && s.budget.value >= 5000 && s.clientType == "Copytrader" {
      pushed := pushed + [RecommendationFor(CopyPro, s)];
    }
    ghost var p4 := pushed;
    assert p4 == p3 + Pushed(CopyPro, s);
    if "XAU" in s.instruments {
      pushed := pushed + [RecommendationFor(GoldRoutes, s)];
    }
    assert pushed == p4 + Pushed(GoldRoutes, s);
    FiredUnfold(s);
  }

  /** `computeRecommendations(answers, labelMap)`: the signals are read, the
      rule results pushed, the fallback added when there are none, and the
      list sorted by descending score. */
  method ComputeRecommendations(answers: Answers, labelMap: LabelMap) returns (recs: seq<Recommendation>)
    ensures recs == Recommend(SignalsOf(answers, labelMap))
    ensures recs != []
    ensures forall i, j :: 0 <= i < j < |recs| ==> recs[i].score > recs[j].score
  {
    var s := SignalsOf(answers, labelMap);
    var pushed := PushFired(s);
    if |pushed| == 0 {
      pushed := pushed + [Onboarding];
    }
    assert pushed == WithFallback(Fired(s));
    recs := StableSort.SortBy(pushed, ByScore);
    RecommendNonEmpty(s);
    RecommendStrictlyDecreasing(s);
  }

  lemma FiredUnfold(s: Signals)
    ensures Fired(s) ==
      Pushed(LowSpreads, s) + Pushed(FastServer, s) + Pushed(EcnRebate, s) + Pushed(CopyPro, s) + Pushed(GoldRoutes, s)
  {
    var r1 := [FastServer, EcnRebate, CopyPro, GoldRoutes];
    var r2 := [EcnRebate, CopyPro, GoldRoutes];
    var r3 := [CopyPro, GoldRoutes];
    var r4 := [GoldRoutes];
    FiredCons(LowSpreads, r1, s);
    FiredCons(FastServer, r2, s);
    FiredCons(EcnRebate, r3, s);
    FiredCons(CopyPro, r4, s);
    FiredCons(GoldRoutes, [], s);
    assert [LowSpreads] + r1 == AllRules;
    assert [FastServer] + r2 == r1;
    assert [EcnRebate] + r3 == r2;
    assert [CopyPro] + r4 == r3;
    assert [GoldRoutes] + [] == r4;
    var p1, p2, p3, p4, p5 := Pushed(LowSpreads, s), Pushed(FastServer, s), Pushed(EcnRebate, s), Pushed(CopyPro, s), Pushed(GoldRoutes, s);
    Reassociate(p1, p2, p3, p4, p5);
  }

  lemma Reassociate<T>(p1: seq<T>, p2: seq<T>, p3: seq<T>, p4: seq<T>, p5: seq<T>)
    ensures p1 + (p2 + (p3 + (p4 + (p5 + [])))) == p1 + p2 + p3 + p4 + p5
  {
    assert p5 + [] == p5;
  }

  lemma FiredCons(rule: Rule, rest: seq<Rule>, s: Signals)
    ensures FiredFrom([rule] + rest, s) == Pushed(rule, s) + FiredFrom(rest, s)
  {
    assert ([rule] + rest)[1..] == rest;
  }

  /** The table lists every rule, each once, with distinct titles and scores. */
  lemma AllRulesComplete(rule: Rule)
    ensures rule in AllRules
  {
    match rule
    case LowSpreads => assert AllRules[0] == rule;
    case FastServer => assert AllRules[1] == rule;
    case EcnRebate => assert AllRules[2] == rule;
    case CopyPro => assert AllRules[3] == rule;
    case GoldRoutes => assert AllRules[4] == rule;
  }

  /** No two rules share a score, and none has the fallback's. */
  lemma ScoresDistinct(a: Rule, b: Rule)
    ensures Score(a) == Score(b) ==> a == b
    ensures Score(a) != Onboarding.score
  {
  }

  /** The output is never empty. */
  lemma RecommendNonEmpty(s: Signals)
    ensures Recommend(s) != []
  {
    StableSort.SortByPermutes(WithFallback(Fired(s)), ByScore);
  }

  /** Every fired recommendation is the one of a rule of the list that fires. */
  lemma {:induction false} FiredMembers(rules: seq<Rule>, s: Signals, r: Recommendation)
    ensures r in FiredFrom(rules, s) <==> exists rule :: rule in rules && Fires(rule, s) && r == RecommendationFor(rule, s)
  {
    if rules != [] {
      FiredMembers(rules[1..], s, r);
      assert forall rule :: rule in rules <==> rule == rules[0] || rule in rules[1..];
    }
  }

  lemma {:induction false} FiredDistinct(rules: seq<Rule>, s: Signals)
    requires forall i, j :: 0 <= i < j < |rules| ==> Score(rules[i]) != Score(rules[j])
    ensures forall i, j :: 0 <= i < j < |FiredFrom(rules, s)| ==> FiredFrom(rules, s)[i].score != FiredFrom(rules, s)[j].score
  {
    if rules != [] {
      var tail := FiredFrom(rules[1..], s);
      FiredDistinct(rules[1..], s);
      if Fires(rules[0], s) {
        forall j | 0 <= j < |tail| ensures tail[j].score != Score(rules[0]) {
          FiredMembers(rules[1..], s, tail[j]);
          var rule :| rule in rules[1..] && Fires(rule, s) && tail[j] == RecommendationFor(rule, s);
          var m :| 0 <= m < |rules[1..]| && rules[1..][m] == rule;
          assert rules[m + 1] == rule;
        }
      }
    }
  }

  /** The output is in strictly decreasing score order: the sort puts higher
      scores first and no two rules share a score. */
  lemma RecommendStrictlyDecreasing(s: Signals)
    ensures forall i, j :: 0 <= i < j < |Recommend(s)| ==> Recommend(s)[i].score > Recommend(s)[j].score
  {
    var pushed := WithFallback(Fired(s));
    FiredDistinct(AllRules, s);
    var r := Recommend(s);
    StableSort.SortBySorted(pushed, ByScore);
    StableSort.SortByDistinct(pushed, ByScore);
    forall i, j | 0 <= i < j < |r| ensures r[i].score > r[j].score {
      StableSort.LexLeSingle(-(r[i].score as int), -(r[j].score as int));
    }
  }

  /** The recommendations in the output are exactly the ones pushed. */
  lemma RecommendMembers(s: Signals, r: Recommendation)
    ensures r in Recommend(s) <==> r in WithFallback(Fired(s))
  {
    StableSort.SortByPermutes(WithFallback(Fired(s)), ByScore);
    assert r in Recommend(s) <==> r in multiset(Recommend(s));
  }

  lemma {:induction false} FiredEmpty(rules: seq<Rule>, s: Signals)
    ensures FiredFrom(rules, s) == [] <==> forall rule :: rule in rules ==> !Fires(rule, s)
  {
    if rules != [] {
      FiredEmpty(rules[1..], s);
      assert forall rule :: rule in rules <==> rule == rules[0] || rule in rules[1..];
    }
  }

  /** The fallback is recommended exactly when no rule fires, and then it is
      the only recommendation. */
  lemma FallbackExactlyWhenNoRule(s: Signals)
    ensures Onboarding in Recommend(s) <==> forall rule :: !Fires(rule, s)
    ensures (forall rule :: !Fires(rule, s)) ==> Recommend(s) == [Onboarding]
  {
    RecommendMembers(s, Onboarding);
    FiredMembers(AllRules, s, Onboarding);
    FiredEmpty(AllRules, s);
    forall rule ensures rule in AllRules { AllRulesComplete(rule); }
    forall rule ensures Onboarding != RecommendationFor(rule, s) { ScoresDistinct(rule, rule); }
    StableSort.SortBySingle(Onboarding, ByScore);
  }

  /** A rule's recommendation is in the output exactly when the rule fires,
      and it is the only one with that rule's title. */
  lemma RuleIff(rule: Rule, s: Signals)
    ensures RecommendationFor(rule, s) in Recommend(s) <==> Fires(rule, s)
  {
    var mine := RecommendationFor(rule, s);
    RecommendMembers(s, mine);
    FiredMembers(AllRules, s, mine);
    AllRulesComplete(rule);
    ScoresDistinct(rule, rule);
    if mine in Fired(s) {
      var other :| other in AllRules && Fires(other, s) && mine == RecommendationFor(other, s);
      ScoresDistinct(rule, other);
    }
  }

  /** A recommendation with a rule's score appears exactly when that rule
      fires, and it is then the rule's own recommendation. */
  lemma ScoreIff(rule: Rule, s: Signals)
    ensures (exists r :: r in Recommend(s) && r.score == Score(rule)) <==> Fires(rule, s)
    ensures forall r :: r in Recommend(s) && r.score == Score(rule) ==> r == RecommendationFor(rule, s)
  {
    RuleIff(rule, s);
    forall r | r in Recommend(s) && r.score == Score(rule) ensures r == RecommendationFor(rule, s) && Fires(rule, s) {
      RecommendMembers(s, r);
      FiredMembers(AllRules, s, r);
      ScoresDistinct(rule, rule);
      if r != Onboarding {
        var other :| other in AllRules && Fires(other, s) && r == RecommendationFor(other, s);
        ScoresDistinct(rule, other);
      }
    }
  }

  /** 'Plan Spreads Bajos' (20) is recommended exactly when 'spreads altos'
      is among the pain points. */
  lemma SpreadsRule(s: Signals)
    ensures (exists r :: r in Recommend(s) && r.title == "Plan Spreads Bajos" && r.score == 20)
            <==> "spreads altos" in s.pain
  {
    ScoreIff(LowSpreads, s);
    if Fires(LowSpreads, s) {
      assert RecommendationFor(LowSpreads, s) in Recommend(s);
    }
  }

  /** 'Cuenta ECN + Rebate' (25) is recommended exactly when the volume is a
      number of at least 50 000. */
  lemma VolumeRule(s: Signals)
    ensures (exists r :: r in Recommend(s) && r.title == "Cuenta ECN + Rebate" && r.score == 25)
            <==> s.volume.Some? && s.volume.value >= 50000
  {
    ScoreIff(EcnRebate, s);
    if Fires(EcnRebate, s) {
      assert RecommendationFor(EcnRebate, s) in Recommend(s);
    }
  }

  /** 'Programa Copy Pro' (22) needs both a budget of at least 5000 and the
      client type 'Copytrader'. */
  lemma CopyProRule(s: Signals)
    ensures (exists r :: r in Recommend(s) && r.title == "Programa Copy Pro" && r.score == 22)
            <==> (s.budget.Some? && s.budget.value >= 5000 && s.clientType == "Copytrader")
  {
    ScoreIff(CopyPro, s);
    if Fires(CopyPro, s) {
      assert RecommendationFor(CopyPro, s) in Recommend(s);
    }
  }

  /** 'Servidor Pro + VPS' (18) is recommended exactly when 'ejecución
      lenta' is among the pain points. */
  lemma ServerRule(s: Signals)
    ensures (exists r :: r in Recommend(s) && r.title == "Servidor Pro + VPS" && r.score == 18)
            <==> "ejecución lenta" in s.pain
  {
    ScoreIff(FastServer, s);
    if Fires(FastServer, s) {
      assert RecommendationFor(FastServer, s) in Recommend(s);
    }
  }

  /** 'Rutas XAU baja latencia' (12) is recommended exactly when 'XAU' is
      among the instruments. */
  lemma GoldRule(s: Signals)
    ensures (exists r :: r in Recommend(s) && r.title == "Rutas XAU baja latencia" && r.score == 12)
            <==> "XAU" in s.instruments
  {
    ScoreIff(GoldRoutes, s);
    if Fires(GoldRoutes, s) {
      assert RecommendationFor(GoldRoutes, s) in Recommend(s);
    }
  }

  /** `get` trims the label itself, so a label reads the same trimmed or
      not. */
  lemma GetTrims(answers: Answers, labelMap: LabelMap, caption: string)
    ensures Get(answers, labelMap, JsString.Trim(caption)) == Get(answers, labelMap, caption)
  {
    JsString.TrimIdempotent(caption);
  }

  /** An unknown label or one mapped to an empty id reads `undefined`, and
      anything else `get` reads is the answer stored under the mapped id. */
  lemma GetSpec(answers: Answers, labelMap: LabelMap, caption: string)
    ensures var key := JsString.Trim(caption);
            key !in labelMap || labelMap[key] == "" ==> Get(answers, labelMap, caption) == Undefined
    ensures var key := JsString.Trim(caption);
            !Get(answers, labelMap, caption).Undefined? ==>
              key in labelMap && labelMap[key] in answers && answers[labelMap[key]] == Get(answers, labelMap, caption)
  {
  }

  /** A whole amount written out by `String` reads back through `Number`,
      as text and as a one-element array. */
  lemma TextNumberRoundTrip(n: nat)
    ensures ToText(Num(n)) == JsString.NatToString(n)
    ensures ToNumber(Str(ToText(Num(n)))) == Some(n)
    ensures ToNumber(List([ToText(Num(n))])) == Some(n)
  {
    var t := JsString.NatToString(n);
    assert JsString.IsTrimmed(t);
    JsString.TrimFixesTrimmed(t);
    JsString.NatToStringValue(n);
  }

  /** The five labels the engine looks up are already trimmed. */
  lemma LabelsTrimmed()
    ensures JsString.Trim(PainLabel) == PainLabel && JsString.Trim(VolumeLabel) == VolumeLabel
    ensures JsString.Trim(BudgetLabel) == BudgetLabel && JsString.Trim(InstrumentsLabel) == InstrumentsLabel
    ensures JsString.Trim(ClientTypeLabel) == ClientTypeLabel
  {
    assert JsString.IsTrimmed(PainLabel) && JsString.IsTrimmed(VolumeLabel) && JsString.IsTrimmed(BudgetLabel);
    assert JsString.IsTrimmed(InstrumentsLabel) && JsString.IsTrimmed(ClientTypeLabel);
    JsString.TrimFixesTrimmed(PainLabel);
    JsString.TrimFixesTrimmed(VolumeLabel);
    JsString.TrimFixesTrimmed(BudgetLabel);
    JsString.TrimFixesTrimmed(InstrumentsLabel);
    JsString.TrimFixesTrimmed(ClientTypeLabel);
  }

  /** A missing volume answer counts as 0, so the volume rule stays off; a
      pain-points answer that is not an array counts as no pain points. */
  lemma MissingSignals(answers: Answers, labelMap: LabelMap)
    ensures Get(answers, labelMap, VolumeLabel).Undefined? ==>
              SignalsOf(answers, labelMap).volume == Some(0) && !Fires(EcnRebate, SignalsOf(answers, labelMap))
    ensures !Get(answers, labelMap, PainLabel).List? ==> SignalsOf(answers, labelMap).pain == []
  {
    LabelsTrimmed();
  }

  lemma NoAnswersSignals(labelMap: LabelMap)
    ensures SignalsOf(map[], labelMap) == Signals([], Some(0), Some(0), [], "")
  {
    assert forall caption :: Get(map[], labelMap, caption) == Undefined;
  }

  /** With no answers at all, the fallback is the only recommendation,
      whatever the label map. */
  lemma NoAnswersGiveFallback(labelMap: LabelMap)
    ensures Recommend(SignalsOf(map[], labelMap)) == [Onboarding]
  {
    NoAnswersSignals(labelMap);
    NoSignalsFallback(SignalsOf(map[], labelMap));
  }

  lemma NoSignalsFallback(s: Signals)
    requires s == Signals([], Some(0), Some(0), [], "")
    ensures Recommend(s) == [Onboarding]
  {
    FiredUnfold(s);
    assert Pushed(LowSpreads, s) == [] && Pushed(FastServer, s) == [] && Pushed(EcnRebate, s) == [];
    assert Pushed(CopyPro, s) == [] && Pushed(GoldRoutes, s) == [];
    StableSort.SortBySingle(Onboarding, ByScore);
  }

  /** The answers and label map of the module's test, where every rule fires. */
  const TestAnswers: Answers := map[
    "f1" := List(["spreads altos", "ejecución lenta"]), "f2" := Num(60000), "f3" := Num(6000),
    "f4" := List(["XAU"]), "f5" := Str("Copytrader")]
  const TestLabels: LabelMap := map[
    PainLabel := "f1", VolumeLabel := "f2", BudgetLabel := "f3", InstrumentsLabel := "f4", ClientTypeLabel := "f5"]

  /** The test's `i`-th field id, "f1" to "f5". */
  function TestId(i: nat): string
    requires 1 <= i <= 5
  {
    ["f1", "f2", "f3", "f4", "f5"][i - 1]
  }

  const TestSignalValues := Signals(["spreads altos", "ejecución lenta"], Some(60000), Some(6000), ["XAU"], "Copytrader")

  /** The five labels differ, and so do the test's field ids. The labels
      have different lengths and the ids different second characters, which
      is how the test lemmas tell them apart. */
  lemma LabelsDistinct()
    ensures PainLabel != VolumeLabel && PainLabel != BudgetLabel && PainLabel != InstrumentsLabel
    ensures PainLabel != ClientTypeLabel && VolumeLabel != BudgetLabel && VolumeLabel != InstrumentsLabel
    ensures VolumeLabel != ClientTypeLabel && BudgetLabel != InstrumentsLabel && BudgetLabel != ClientTypeLabel
    ensures InstrumentsLabel != ClientTypeLabel
    ensures forall i, j :: 1 <= i < j <= 5 ==> TestId(i) != TestId(j)
    ensures |PainLabel| == 11 && |VolumeLabel| == 21 && |BudgetLabel| == 32
    ensures |InstrumentsLabel| == 24 && |ClientTypeLabel| == 42
    ensures "f1"[1] == '1' && "f2"[1] == '2' && "f3"[1] == '3' && "f4"[1] == '4' && "f5"[1] == '5'
  {
  }

  lemma TestSignals()
    ensures SignalsOf(TestAnswers, TestLabels) == TestSignalValues
  {
    TestPainAndVolume();
    TestBudgetAndInstruments();
    TestClientType();
    SignalsOfReads(TestAnswers, TestLabels, List(["spreads altos", "ejecución lenta"]), Num(60000), Num(6000),
                   List(["XAU"]), Str("Copytrader"));
  }

  lemma TestPainAndVolume()
    ensures Get(TestAnswers, TestLabels, PainLabel) == List(["spreads altos", "ejecución lenta"])
    ensures Get(TestAnswers, TestLabels, VolumeLabel) == Num(60000)
  {
    LabelsTrimmed();
    LabelsDistinct();
    GetHit(TestAnswers, TestLabels, PainLabel);
    GetHit(TestAnswers, TestLabels, VolumeLabel);
  }

  lemma TestBudgetAndInstruments()
    ensures Get(TestAnswers, TestLabels, BudgetLabel) == Num(6000)
    ensures Get(TestAnswers, TestLabels, InstrumentsLabel) == List(["XAU"])
  {
    LabelsTrimmed();
    LabelsDistinct();
    GetHit(TestAnswers, TestLabels, BudgetLabel);
    GetHit(TestAnswers, TestLabels, InstrumentsLabel);
  }

  lemma TestClientType()
    ensures Get(TestAnswers, TestLabels, ClientTypeLabel) == Str("Copytrader")
  {
    LabelsTrimmed();
    LabelsDistinct();
    GetHit(TestAnswers, TestLabels, ClientTypeLabel);
  }

  /** The signals are the five readings of whatever the lookups return. */
  lemma SignalsOfReads(answers: Answers, labelMap: LabelMap, pain: Value, volume: Value, budget: Value,
                       instruments: Value, clientType: Value)
    requires Get(answers, labelMap, PainLabel) == pain && Get(answers, labelMap, VolumeLabel) == volume
    requires Get(answers, labelMap, BudgetLabel) == budget && Get(answers, labelMap, InstrumentsLabel) == instruments
    requires Get(answers, labelMap, ClientTypeLabel) == clientType
    ensures SignalsOf(answers, labelMap) ==
            Signals(ListOr(pain), ToNumber(Coalesce(volume, Num(0))), ToNumber(Coalesce(budget, Num(0))),
                    ListOr(instruments), ToText(Coalesce(clientType, Str(""))))
  {
  }

  /** A trimmed label mapped to a field with an answer finds that answer. */
  lemma GetHit(answers: Answers, labelMap: LabelMap, caption: string)
    requires JsString.Trim(caption) == caption && caption in labelMap
    requires labelMap[caption] != "" && labelMap[caption] in answers
    ensures Get(answers, labelMap, caption) == answers[labelMap[caption]]
  {
  }

  /** When every rule fires, the result holds all five recommendations,
      highest score first: 25, 22, 20, 18, 12. */
  lemma AllRulesFire(s: Signals)
    requires Fires(LowSpreads, s) && Fires(FastServer, s) && Fires(EcnRebate, s)
    requires Fires(CopyPro, s) && Fires(GoldRoutes, s)
    ensures Recommend(s) ==
            [RecommendationFor(EcnRebate, s), RecommendationFor(CopyPro, s), RecommendationFor(LowSpreads, s),
             RecommendationFor(FastServer, s), RecommendationFor(GoldRoutes, s)]
  {
    var a, b, c, d, e :=
      RecommendationFor(LowSpreads, s), RecommendationFor(FastServer, s), RecommendationFor(EcnRebate, s),
      RecommendationFor(CopyPro, s), RecommendationFor(GoldRoutes, s);
    assert c.score == 25 && d.score == 22 && a.score == 20 && b.score == 18 && e.score == 12;
    Decreasing5(c, d, a, b, e);
    Permute5(a, b, c, d, e);
    FiredAll(s);
    var expected := [c, d, a, b, e];
    StableSort.SortByPermutes(WithFallback(Fired(s)), ByScore);
    RecommendStrictlyDecreasing(s);
    assert StrictlyDecreasing(Recommend(s));
    DecreasingUnique(Recommend(s), expected);
  }

  /** When every rule fires, each one pushes its recommendation, in rule order. */
  lemma FiredAll(s: Signals)
    requires Fires(LowSpreads, s) && Fires(FastServer, s) && Fires(EcnRebate, s)
    requires Fires(CopyPro, s) && Fires(GoldRoutes, s)
    ensures Fired(s) == [RecommendationFor(LowSpreads, s), RecommendationFor(FastServer, s),
                         RecommendationFor(EcnRebate, s), RecommendationFor(CopyPro, s),
                         RecommendationFor(GoldRoutes, s)]
  {
    FiredUnfold(s);
    assert Pushed(LowSpreads, s) == [RecommendationFor(LowSpreads, s)];
    assert Pushed(FastServer, s) == [RecommendationFor(FastServer, s)];
    assert Pushed(EcnRebate, s) == [RecommendationFor(EcnRebate, s)];
    assert Pushed(CopyPro, s) == [RecommendationFor(CopyPro, s)];
    assert Pushed(GoldRoutes, s) == [RecommendationFor(GoldRoutes, s)];
    Concat5(RecommendationFor(LowSpreads, s), RecommendationFor(FastServer, s), RecommendationFor(EcnRebate, s),
            RecommendationFor(CopyPro, s), RecommendationFor(GoldRoutes, s));
  }

  lemma Concat5<T>(a: T, b: T, c: T, d: T, e: T)
    ensures [a] + [b] + [c] + [d] + [e] == [a, b, c, d, e]
  {
  }

  lemma Permute5<T>(a: T, b: T, c: T, d: T, e: T)
    ensures multiset([a, b, c, d, e]) == multiset([c, d, a, b, e])
  {
    assert [a, b, c, d, e] == [a, b] + [c, d] + [e] && [c, d, a, b, e] == [c, d] + [a, b] + [e];
  }

  lemma Decreasing5(r1: Recommendation, r2: Recommendation, r3: Recommendation, r4: Recommendation, r5: Recommendation)
    requires r1.score > r2.score > r3.score > r4.score > r5.score
    ensures StrictlyDecreasing([r1, r2, r3, r4, r5])
  {
  }

  /** The case of the module's test: all five recommendations, by score. */
  lemma TestResult()
    ensures Recommend(SignalsOf(TestAnswers, TestLabels)) ==
            [RecommendationFor(EcnRebate, TestSignalValues), RecommendationFor(CopyPro, TestSignalValues),
             RecommendationFor(LowSpreads, TestSignalValues), RecommendationFor(FastServer, TestSignalValues),
             RecommendationFor(GoldRoutes, TestSignalValues)]
  {
    TestSignals();
    var s := TestSignalValues;
    assert s.pain[0] == "spreads altos" && s.pain[1] == "ejecución lenta" && s.instruments[0] == "XAU";
    AllRulesFire(s);
  }

  predicate StrictlyDecreasing(p: seq<Recommendation>) {
    forall i, j :: 0 <= i < j < |p| ==> p[i].score > p[j].score
  }

  /** Two lists whose scores strictly decrease and that hold the same
      recommendations are the same list. */
  lemma {:induction false} DecreasingUnique(p: seq<Recommendation>, q: seq<Recommendation>)
    requires StrictlyDecreasing(p) && StrictlyDecreasing(q)
    requires multiset(p) == multiset(q)
    ensures p == q
  {
    if p != [] {
      assert |q| == |p| by { assert |multiset(q)| == |multiset(p)|; }
      assert p[0] in multiset(q) && q[0] in multiset(p);
      var i :| 0 <= i < |q| && q[i] == p[0];
      var j :| 0 <= j < |p| && p[j] == q[0];
      assert i == 0 && j == 0;
      MultisetTail(p);
      MultisetTail(q);
      DecreasingTail(p);
      DecreasingTail(q);
      DecreasingUnique(p[1..], q[1..]);
      HeadTail(p, q);
    }
  }

  lemma HeadTail<T>(p: seq<T>, q: seq<T>)
    requires p != [] && q != [] && p[0] == q[0] && p[1..] == q[1..]
    ensures p == q
  {
    assert p == [p[0]] + p[1..] && q == [q[0]] + q[1..];
  }

  lemma MultisetTail<T>(s: seq<T>)
    requires s != []
    ensures multiset(s[1..]) == multiset(s) - multiset{s[0]}
  {
    assert s == [s[0]] + s[1..];
  }

  lemma DecreasingTail(s: seq<Recommendation>)
    requires s != [] && StrictlyDecreasing(s)
    ensures StrictlyDecreasing(s[1..])
  {
    forall i, j | 0 <= i < j < |s[1..]| ensures s[1..][i].score > s[1..][j].score {
      assert s[1..][i] == s[i + 1] && s[1..][j] == s[j + 1];
    }
  }
}
