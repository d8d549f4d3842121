// The road-risk classifier of the weather updater (calculate_risk): a
// first-match-wins chain of rules from one day's high, low, snowfall and
// precipitation to a tier and a French label.
//
// Every quantity is a whole number of tenths (the caller rounds each value
// to one decimal before classifying), so "low > 2" in degrees is
// `low > 2 * Scale` here.

module Risk {
  import opened Text

  /** Tenths per unit: degrees Celsius, centimetres of snow, millimetres of rain. */
  const Scale: int := 10

  datatype Tier = Safe | Caution | Danger

  /** The label texts; the ones that embed a number carry it, in tenths. */
  datatype Label =
    | Parfait
    | PasDeGel
    | GelLeger
    | Neige(amount: int, bang: bool)  // "NEIGE {snow}cm", "!" appended when bang
    | Regel(low: int)
    | Verglas
    | PluieGel
    | GelSevere(low: int)
    | Gel(low: int)
    | Prudence

  datatype Assessment = Assessment(risk: Tier, riskLabel: Label)

  /** The tier each label is reported with. */
  function TierOf(l: Label): Tier {
    match l
    case Parfait | PasDeGel => Safe
    case GelLeger | Prudence => Caution
    case _ => Danger
  }

  /** calculate_risk(high, low, snow, precip). */
  function Classify(high: int, low: int, snow: int, precip: int): (r: Assessment)
    ensures r.risk == TierOf(r.riskLabel)
  {
    if low > 2 * Scale && snow == 0 then
      if high > 8 * Scale then Assessment(Safe, Parfait) else Assessment(Safe, PasDeGel)
    else if low > -1 * Scale && snow == 0 then Assessment(Caution, GelLeger)
    else if snow > 5 * Scale then Assessment(Danger, Neige(snow, true))
    else if snow > 2 * Scale then Assessment(Danger, Neige(snow, false))
    else if snow > 0 then Assessment(Danger, Neige(snow, false))
    else if high > 8 * Scale && low < -2 * Scale then Assessment(Danger, Regel(low))
    else if precip > 0 && low < 0 then
      if low < -3 * Scale then Assessment(Danger, Verglas) else Assessment(Danger, PluieGel)
    else if low < -4 * Scale then Assessment(Danger, GelSevere(low))
    else if low < -1 * Scale then Assessment(Danger, Gel(low))
    else Assessment(Caution, Prudence)
  }

  function TierText(t: Tier): string {
    match t
    case Safe => "safe"
    case Caution => "caution"
    case Danger => "danger"
  }

  /** The label string calculate_risk returns; numbers print as Python floats. */
  function LabelText(l: Label): string {
    match l
    case Parfait => "Parfait"
    case PasDeGel => "Pas de gel"
    case GelLeger => "Gel léger"
    case Neige(a, b) => "NEIGE " + TenthsText(a) + "cm" + (if b then "!" else "")
    case Regel(t) => "REGEL " + TenthsText(t) + "°C!"
    case Verglas => "VERGLAS!"
    case PluieGel => "Pluie + gel"
    case GelSevere(t) => "Gel SÉVÈRE " + TenthsText(t) + "°C"
    case Gel(t) => "Gel " + TenthsText(t) + "°C"
    case Prudence => "Prudence"
  }

  // ---------------------------------------------------------------------
  // An order-free description of the chain: which inputs reach which result
  // ---------------------------------------------------------------------

  /**
   * The set of inputs for which the chain returns `a`, written as one
   * condition per result with no reference to the order of the rules.
   */
  predicate InRegion(a: Assessment, high: int, low: int, snow: int, precip: int) {
    a.risk == TierOf(a.riskLabel) &&
    match a.riskLabel
    case Parfait => snow == 0 && low > 2 * Scale && high > 8 * Scale
    case PasDeGel => snow == 0 && low > 2 * Scale && high <= 8 * Scale
    case GelLeger => snow == 0 && -1 * Scale < low <= 2 * Scale
    case Neige(x, b) => snow > 0 && x == snow && b == (snow > 5 * Scale)
    case Regel(t) => snow <= 0 && high > 8 * Scale && low < -2 * Scale && t == low
    case Verglas => snow <= 0 && high <= 8 * Scale && precip > 0 && low < -3 * Scale
    case PluieGel =>
      snow <= 0 && (snow < 0 || low <= -1 * Scale) && precip > 0 && -3 * Scale <= low < 0
      && !(high > 8 * Scale && low < -2 * Scale)
    case GelSevere(t) => snow <= 0 && high <= 8 * Scale && precip <= 0 && low < -4 * Scale && t == low
    case Gel(t) =>
      snow <= 0 && precip <= 0 && -4 * Scale <= low < -1 * Scale
      && !(high > 8 * Scale && low < -2 * Scale) && t == low
    case Prudence =>
      snow <= 0 && (snow < 0 || low <= -1 * Scale) && low >= -1 * Scale
      && !(precip > 0 && low < 0)
  }

  /** The chain returns exactly the result whose region holds the input. */
  lemma ClassifyIffRegion(high: int, low: int, snow: int, precip: int, a: Assessment)
    ensures Classify(high, low, snow, precip) == a <==> InRegion(a, high, low, snow, precip)
  {
  }

  // ---------------------------------------------------------------------
  // The rules one at a time
  // ---------------------------------------------------------------------

  /** Safe exactly when the low stays above 2 degrees and no snow falls. */
  lemma SafeExactly(high: int, low: int, snow: int, precip: int)
    ensures Classify(high, low, snow, precip).risk == Safe <==> low > 2 * Scale && snow == 0
  {
  }

  /** A safe day is "Parfait" when the high exceeds 8 degrees, "Pas de gel" otherwise. */
  lemma SafeLabel(high: int, low: int, snow: int, precip: int)
    requires low > 2 * Scale && snow == 0
    ensures Classify(high, low, snow, precip).riskLabel == (if high > 8 * Scale then Parfait else PasDeGel)
  {
  }

  /** No snow and a low in (-1, 2] is light frost, whatever the high and the rain. */
  lemma LightFrost(high: int, low: int, snow: int, precip: int)
    requires snow == 0 && -1 * Scale < low <= 2 * Scale
    ensures Classify(high, low, snow, precip) == Assessment(Caution, GelLeger)
  {
  }

  /** Any snow is danger with a NEIGE label that repeats the amount. */
  lemma SnowIsDanger(high: int, low: int, snow: int, precip: int)
    requires snow > 0
    ensures Classify(high, low, snow, precip) == Assessment(Danger, Neige(snow, snow > 5 * Scale))
  {
  }

  /** The NEIGE text ends in "!" exactly when more than 5 cm fall. */
  lemma SnowBang(high: int, low: int, snow: int, precip: int)
    requires snow > 0
    ensures var t := LabelText(Classify(high, low, snow, precip).riskLabel);
      |t| > 0 && (t[|t| - 1] == '!' <==> snow > 5 * Scale)
  {
    var n := TenthsText(snow);
    assert n[|n| - 1] == Digit(Abs(snow) % 10);
  }

  /** The "> 2 cm" and "> 0 cm" rules print the same text for the same amount. */
  lemma SnowMiddleRulesSameText(high: int, low: int, precip: int, s1: int, s2: int)
    requires 2 * Scale < s1 <= 5 * Scale && 0 < s2 <= 2 * Scale
    ensures LabelText(Classify(high, low, s1, precip).riskLabel) == "NEIGE " + TenthsText(s1) + "cm"
    ensures LabelText(Classify(high, low, s2, precip).riskLabel) == "NEIGE " + TenthsText(s2) + "cm"
  {
  }

  /** A warm day over a hard night is REGEL, even when it rains. */
  lemma RefreezeFirst(high: int, low: int, snow: int, precip: int)
    requires snow == 0 && high > 8 * Scale && low < -2 * Scale
    ensures Classify(high, low, snow, precip) == Assessment(Danger, Regel(low))
  {
  }

  /** Rain on a frozen road, no snow and no refreeze: VERGLAS below -3, otherwise rain and frost. */
  lemma RainOnFrost(high: int, low: int, snow: int, precip: int)
    requires snow == 0 && low <= -1 * Scale && !(high > 8 * Scale && low < -2 * Scale)
    requires precip > 0
    ensures Classify(high, low, snow, precip)
      == Assessment(Danger, if low < -3 * Scale then Verglas else PluieGel)
  {
  }

  /** With neither snow, rain nor refreeze, the frost ladder: severe, plain, then Prudence at -1. */
  lemma FrostLadder(high: int, low: int, snow: int, precip: int)
    requires snow == 0 && precip <= 0 && low <= -1 * Scale
    requires !(high > 8 * Scale && low < -2 * Scale)
    ensures low < -4 * Scale ==> Classify(high, low, snow, precip) == Assessment(Danger, GelSevere(low))
    ensures -4 * Scale <= low < -1 * Scale ==> Classify(high, low, snow, precip) == Assessment(Danger, Gel(low))
    ensures low == -1 * Scale ==> Classify(high, low, snow, precip) == Assessment(Caution, Prudence)
  {
  }

  /** For non-negative snowfall the catch-all is reached only at exactly -1 with no snow and no rain. */
  lemma PrudenceOnlyAtMinusOne(high: int, low: int, snow: int, precip: int)
    requires snow >= 0
    ensures Classify(high, low, snow, precip).riskLabel == Prudence
      <==> snow == 0 && low == -1 * Scale && precip <= 0
  {
  }

  // ---------------------------------------------------------------------
  // The label text tells the results apart
  // ---------------------------------------------------------------------

  lemma TenthsTextShape(t: int)
    ensures |TenthsText(t)| >= 3
    ensures TenthsText(t)[0] == '-' || '0' <= TenthsText(t)[0] <= '9'
    ensures '0' <= TenthsText(t)[|TenthsText(t)| - 1] <= '9'
  {
    var n := NatText(Abs(t) / 10);
    if t >= 0 {
      assert TenthsText(t)[0] == n[0];
    }
  }

  /**
   * Which label a text of at least five characters starts like, as a code
   * in declaration order: 0 Parfait, 1 Pas de gel, 2 Gel léger, 3 NEIGE,
   * 4 REGEL, 5 VERGLAS!, 6 Pluie + gel, 7 Gel SÉVÈRE, 8 Gel, 9 Prudence.
   */
  function LeadingKind(s: string): int
    requires |s| >= 5
  {
    if s[0] == 'N' then 3
    else if s[0] == 'R' then 4
    else if s[0] == 'V' then 5
    else if s[0] == 'P' then
      if s[1] == 'l' then 6 else if s[1] == 'r' then 9 else if s[2] == 'r' then 0 else 1
    else if s[4] == 'l' then 2
    else if s[4] == 'S' then 7
    else 8
  }

  /** The code of a label, numbered as in LeadingKind. */
  function KindOf(l: Label): int {
    match l
    case Parfait => 0
    case PasDeGel => 1
    case GelLeger => 2
    case Neige(_, _) => 3
    case Regel(_) => 4
    case Verglas => 5
    case PluieGel => 6
    case GelSevere(_) => 7
    case Gel(_) => 8
    case Prudence => 9
  }

  /** The first characters of a label's text name its kind. */
  lemma LeadingKindOfText(l: Label)
    ensures |LabelText(l)| >= 5 && LeadingKind(LabelText(l)) == KindOf(l)
  {
    match l
    case Neige(x, _) => TenthsTextShape(x);
    case Regel(x) => TenthsTextShape(x);
    case GelSevere(x) => TenthsTextShape(x);
    case Gel(x) => LeadingKindOfGel(x);
    case _ => LeadingKindOfFixed(l);
  }

  lemma LeadingKindOfFixed(l: Label)
    requires !l.Neige? && !l.Regel? && !l.GelSevere? && !l.Gel?
    ensures |LabelText(l)| >= 5 && LeadingKind(LabelText(l)) == KindOf(l)
  {
  }

  lemma LeadingKindOfGel(x: int)
    ensures |LabelText(Gel(x))| >= 5 && LeadingKind(LabelText(Gel(x))) == 8
  {
    TenthsTextShape(x);
    assert LabelText(Gel(x))[4] == TenthsText(x)[0];
  }

  /** Reads back the number in `prefix + TenthsText(t) + suffix`. */
  lemma StripNumber(prefix: string, t1: int, t2: int, suffix: string)
    requires prefix + TenthsText(t1) + suffix == prefix + TenthsText(t2) + suffix
    ensures t1 == t2
  {
    var w := prefix + TenthsText(t1) + suffix;
    assert TenthsText(t1) == w[|prefix|..|w| - |suffix|];
    assert TenthsText(t2) == w[|prefix|..|w| - |suffix|];
    TenthsTextInjective(t1, t2);
  }

  lemma NeigeLastChar(x: int, b: bool)
    ensures var t := LabelText(Neige(x, b)); |t| > 0 && t[|t| - 1] == (if b then '!' else 'm')
  {
  }

  lemma NeigeSame(x: int, bx: bool, y: int, bb: bool)
    requires LabelText(Neige(x, bx)) == LabelText(Neige(y, bb))
    ensures x == y && bx == bb
  {
    var tx, ty := LabelText(Neige(x, bx)), LabelText(Neige(y, bb));
    TenthsTextShape(x);
    TenthsTextShape(y);
    if bx == bb {
      var suffix := "cm" + (if bx then "!" else "");
      assert tx == "NEIGE " + TenthsText(x) + suffix;
      assert ty == "NEIGE " + TenthsText(y) + suffix;
      StripNumber("NEIGE ", x, y, suffix);
    } else {
      NeigeLastChar(x, bx);
      NeigeLastChar(y, bb);
      assert false;
    }
  }

  /** Distinct labels print as distinct texts. */
  lemma LabelTextInjective(a: Label, b: Label)
    requires LabelText(a) == LabelText(b)
    ensures a == b
  {
    LeadingKindOfText(a);
    LeadingKindOfText(b);
    match a
    case Neige(x, bx) => NeigeSame(x, bx, b.amount, b.bang);
    case Regel(t) => StripNumber("REGEL ", t, b.low, "°C!");
    case GelSevere(t) => StripNumber("Gel SÉVÈRE ", t, b.low, "°C");
    case Gel(t) => StripNumber("Gel ", t, b.low, "°C");
    case _ =>
  }
}
