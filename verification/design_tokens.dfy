/** The design-token pass: an ordered list of text substitutions that moves
    hard-coded Tailwind colour classes onto the project's semantic tokens. */
module DesignTokens {
  import opened Text
  import opened Rewrite

  /** `content.replace(target, repl)`. */
  function Lit(target: string, repl: string): Rule
  {
    Rule(Literal(target, repl), Unlimited, Always)
  }

  /** `re.sub(pattern, repl, content)` with no count. */
  function Re(p: Pattern): Rule
  {
    Rule(p, Unlimited, Always)
  }

  const Backgrounds: seq<Rule> := [
    Re(Delimited("bg-white", "bg-bg-card", true)),
    Lit("bg-gray-50", "bg-bg-muted"),
    Lit("bg-gray-100", "bg-bg-muted")
  ]

  const TextColours: seq<Rule> := [
    Lit("text-gray-900", "text-text-primary"),
    Lit("text-gray-800", "text-text-primary"),
    Lit("text-gray-700", "text-text-primary"),
    Lit("text-gray-600", "text-text-secondary"),
    Lit("text-gray-500", "text-text-muted"),
    Re(Delimited("text-white", "text-text-inverse", false))
  ]

  const Borders: seq<Rule> := [
    Lit("border-gray-200", "border-border-default"),
    Lit("border-gray-300", "border-border-default"),
    Lit("border-2 border-gray-200", "border-2 border-border-default")
  ]

  const Brand: seq<Rule> := [
    Re(Delimited("bg-brand", "bg-primary", false)),
    Re(Delimited("text-brand", "text-primary", false)),
    Lit("bg-brand-soft", "bg-primarySoft"),
    Lit("text-brand", "text-primary"),
    Lit("focus:ring-brand", "focus:ring-primary"),
    Lit("focus:border-brand", "focus:border-primary"),
    Lit("border-primary", "border-primary")
  ]

  const Hover: seq<Rule> := [
    Lit("hover:bg-violet-800", "hover:bg-primaryHover"),
    Lit("hover:bg-gray-100", "hover:bg-bg-muted"),
    Lit("hover:bg-purple-500/10", "hover:bg-bg-muted")
  ]

  const Errors: seq<Rule> := [
    Re(DigitRun("text-red-", "text-error")),
    Lit("bg-red-50", "bg-errorSoft"),
    Lit("hover:bg-red-600/10", "hover:bg-errorSoft"),
    Lit("bg-red-600", "bg-error"),
    Lit("border-red-500/30", "border-error")
  ]

  const Successes: seq<Rule> := [
    Re(DigitRun("text-green-", "text-success")),
    Lit("bg-green-50", "bg-successSoft"),
    Lit("bg-green-600", "bg-success"),
    Lit("border-green-300", "border-success"),
    Lit("border-green-500/30", "border-success")
  ]

  const Warnings: seq<Rule> := [
    Lit("text-amber-500", "text-warning"),
    Lit("bg-amber-50", "bg-warningSoft")
  ]

  /** Every substitution, in the order the script runs them. */
  const TokenRules: seq<Rule> :=
    Backgrounds + TextColours + Borders + Brand + Hover + Errors + Successes + Warnings

  /** The whole pass is the sections run one after another. */
  lemma Sections(s: string)
    ensures ApplyAll(TokenRules, s) ==
      ApplyAll(Warnings, ApplyAll(Successes, ApplyAll(Errors, ApplyAll(Hover,
        ApplyAll(Brand, ApplyAll(Borders, ApplyAll(TextColours, ApplyAll(Backgrounds, s))))))))
  {
    var a := Backgrounds + TextColours;
    var b := a + Borders;
    var c := b + Brand;
    var d := c + Hover;
    var e := d + Errors;
    var f := e + Successes;
    ApplyAllAppend(f, Warnings, s);
    ApplyAllAppend(e, Successes, s);
    ApplyAllAppend(d, Errors, s);
    ApplyAllAppend(c, Hover, s);
    ApplyAllAppend(b, Brand, s);
    ApplyAllAppend(a, Borders, s);
    ApplyAllAppend(Backgrounds, TextColours, s);
  }

  /** `apply_design_tokens` without the file reading and writing: every
      substitution runs once, in order, and the function reports success. */
  method ApplyDesignTokens(content: string) returns (out: string, ok: bool)
    ensures out == ApplyAll(TokenRules, content)
    ensures ok
  {
    out := Apply(TokenRules, content);
    ok := true;
  }

  // ---------------------------------------------------------------------------
  // Rules that can never change anything
  // ---------------------------------------------------------------------------

  /** Once `border-gray-200` is replaced none is left. */
  lemma Gray200Gone(u: string)
    ensures !Contains(ApplyRule(Borders[0], u), "border-gray-200")
  {
    NoOverlapBy("border-gray-200", "border-border-default", 'f', [(7, 7)]);
    ReplaceRemoves("border-gray-200", "border-border-default", u);
  }

  /** The next border rule inserts nothing that could form one again. */
  lemma Gray200Kept(t: string)
    requires !Contains(t, "border-gray-200")
    ensures !Contains(ApplyRule(Borders[1], t), "border-gray-200")
  {
    NoOverlapBy("border-gray-200", "border-border-default", 'f', [(7, 7)]);
    RuleKeepsAbsent(Borders[1], t, "border-gray-200");
  }

  lemma TwoRules(rules: seq<Rule>, s: string)
    requires |rules| == 2
    ensures ApplyAll(rules, s) == ApplyRule(rules[1], ApplyRule(rules[0], s))
  {
    assert ApplyAll(rules[..1], s) == ApplyRule(rules[0], s);
  }

  /** The third border rule sees no `border-gray-200`. */
  lemma BordersRemoveGray200(u: string)
    ensures !Contains(ApplyAll(Borders[..2], u), "border-gray-200")
  {
    TwoRules(Borders[..2], u);
    Gray200Gone(u);
    Gray200Kept(ApplyRule(Borders[0], u));
  }

  /** `border-2 border-gray-200` contains `border-gray-200`, so a rule looking
      for it cannot fire on text without `border-gray-200`. */
  lemma Border2Idle(t: string)
    requires !Contains(t, "border-gray-200")
    ensures ApplyRule(Borders[2], t) == t
  {
    var lead := "border-2 border-gray-200";
    assert StartsAt(lead, 9, "border-gray-200");
    if Contains(t, lead) {
      ContainsTransitive(t, lead, "border-gray-200");
    }
    NoLeadNoChange(Borders[2].pattern, t, Unlimited);
  }

  lemma BordersAt11()
    ensures TokenRules[..11] == Backgrounds + TextColours + Borders[..2]
    ensures TokenRules[11] == Borders[2]
  {
  }

  /** The first border rule has already replaced every `border-gray-200`, so
      the third never fires: dropping it from the pass changes no output. */
  lemma Border2IsDead(s: string)
    ensures ApplyAll(TokenRules, s) == ApplyAll(TokenRules[..11] + TokenRules[12..], s)
  {
    var pre := Backgrounds + TextColours;
    var u := ApplyAll(pre, s);
    var t := ApplyAll(Borders[..2], u);
    BordersAt11();
    ApplyAllAppend(pre, Borders[..2], s);
    assert ApplyAll(TokenRules[..11], s) == t;
    BordersRemoveGray200(u);
    Border2Idle(t);
    DeadRule(TokenRules, 11, s);
  }

  /** `replace('border-primary', 'border-primary')` rewrites every occurrence
      to itself: dropping it from the pass changes no output. */
  lemma BorderPrimaryIsIdentity(s: string)
    ensures ApplyAll(TokenRules, s) == ApplyAll(TokenRules[..18] + TokenRules[19..], s)
  {
    BrandAt18();
    DeadSelfRule(TokenRules, 18, "border-primary", s);
  }

  lemma BrandAt18()
    ensures |TokenRules| == 34 && TokenRules[18] == Lit("border-primary", "border-primary")
  {
  }

  /** A rule replacing a word by itself can be dropped from any list. */
  lemma DeadSelfRule(rules: seq<Rule>, i: nat, w: string, s: string)
    requires i < |rules| && rules[i] == Lit(w, w)
    ensures ApplyAll(rules, s) == ApplyAll(rules[..i] + rules[i + 1..], s)
  {
    ReplaceSelf(w, ApplyAll(rules[..i], s), 0, Unlimited);
    DeadRule(rules, i, s);
  }

  // The inserted texts of the rules between the background rules and the
  // second hover rule, each checked against `bg-gray-100`.

  lemma Gray100VsMuted()
    ensures NeverOverlaps("bg-gray-100", "bg-bg-muted")
  {
    NoOverlapBy("bg-gray-100", "bg-bg-muted", 'm', [(3, 3)]);
  }

  lemma Gray100VsTextPrimary()
    ensures NeverOverlaps("bg-gray-100", "text-text-primary")
  {
    NoOverlapBy("bg-gray-100", "text-text-primary", 't', []);
  }

  lemma Gray100VsTextSecondary()
    ensures NeverOverlaps("bg-gray-100", "text-text-secondary")
  {
    NoOverlapBy("bg-gray-100", "text-text-secondary", 't', []);
  }

  lemma Gray100VsTextMuted()
    ensures NeverOverlaps("bg-gray-100", "text-text-muted")
  {
    NoOverlapBy("bg-gray-100", "text-text-muted", 't', []);
  }

  lemma Gray100VsTextInverse()
    ensures NeverOverlaps("bg-gray-100", "text-text-inverse")
  {
    NoOverlapBy("bg-gray-100", "text-text-inverse", 't', []);
  }

  lemma Gray100VsBorderDefault()
    ensures NeverOverlaps("bg-gray-100", "border-border-default")
  {
    NoOverlapBy("bg-gray-100", "border-border-default", 'o', [(7, 1)]);
  }

  lemma Gray100VsBgPrimary()
    ensures NeverOverlaps("bg-gray-100", "bg-primary")
  {
    NoOverlapBy("bg-gray-100", "bg-primary", 'p', []);
  }

  lemma Gray100VsPrimary()
    ensures NeverOverlaps("bg-gray-100", "text-primary")
  {
    NoOverlapBy("bg-gray-100", "text-primary", 't', []);
  }

  lemma Gray100VsPrimarySoft()
    ensures NeverOverlaps("bg-gray-100", "bg-primarySoft")
  {
    NoOverlapBy("bg-gray-100", "bg-primarySoft", 'p', []);
  }

  lemma Gray100VsRingPrimary()
    ensures NeverOverlaps("bg-gray-100", "focus:ring-primary")
  {
    NoOverlapBy("bg-gray-100", "focus:ring-primary", 'f', []);
  }

  lemma Gray100VsFocusBorderPrimary()
    ensures NeverOverlaps("bg-gray-100", "focus:border-primary")
  {
    NoOverlapBy("bg-gray-100", "focus:border-primary", 'f', [(6, 1)]);
  }

  lemma Gray100VsBorderPrimary()
    ensures NeverOverlaps("bg-gray-100", "border-primary")
  {
    NoOverlapBy("bg-gray-100", "border-primary", 'o', []);
  }

  lemma Gray100VsPrimaryHover()
    ensures NeverOverlaps("bg-gray-100", "hover:bg-primaryHover")
  {
    NoOverlapBy("bg-gray-100", "hover:bg-primaryHover", 'h', [(6, 3)]);
  }

  /** Once `bg-gray-100` is replaced none is left. */
  lemma Gray100Gone(s: string)
    ensures !Contains(ApplyAll(Backgrounds, s), "bg-gray-100")
  {
    var u := ApplyAll(Backgrounds[..2], s);
    assert ApplyAll(Backgrounds, s) == ApplyRule(Backgrounds[2], u);
    Gray100VsMuted();
    ReplaceRemoves("bg-gray-100", "bg-bg-muted", u);
  }

  lemma TextColoursKeepGray100Out()
    ensures AllHarmless("bg-gray-100", TextColours)
  {
    Gray100VsTextPrimary();
    Gray100VsTextSecondary();
    Gray100VsTextMuted();
    Gray100VsTextInverse();
  }

  /** The third border rule never fires, so only the first two matter. */
  lemma BordersKeepGray100Out(u: string)
    requires !Contains(u, "bg-gray-100")
    ensures !Contains(ApplyAll(Borders, u), "bg-gray-100")
  {
    Gray100VsBorderDefault();
    RulesKeepAbsent(Borders[..2], u, "bg-gray-100");
    var t := ApplyAll(Borders[..2], u);
    assert ApplyAll(Borders, u) == ApplyRule(Borders[2], t);
    BordersRemoveGray200(u);
    Border2Idle(t);
  }

  lemma BrandKeepsGray100Out()
    ensures AllHarmless("bg-gray-100", Brand)
  {
    Gray100VsBgPrimary();
    Gray100VsPrimary();
    Gray100VsPrimarySoft();
    Gray100VsRingPrimary();
    Gray100VsFocusBorderPrimary();
    Gray100VsBorderPrimary();
  }

  lemma HoverKeepsGray100Out()
    ensures AllHarmless("bg-gray-100", Hover[..1])
  {
    Gray100VsPrimaryHover();
  }

  /** `hover:bg-gray-100` contains `bg-gray-100`, so a rule looking for it
      cannot fire on text without `bg-gray-100`. */
  lemma HoverGray100Idle(t: string)
    requires !Contains(t, "bg-gray-100")
    ensures ApplyRule(Hover[1], t) == t
  {
    var lead := "hover:bg-gray-100";
    assert StartsAt(lead, 6, "bg-gray-100");
    if Contains(t, lead) {
      ContainsTransitive(t, lead, "bg-gray-100");
    }
    NoLeadNoChange(Hover[1].pattern, t, Unlimited);
  }

  lemma HoverAt20()
    ensures TokenRules[..20] == Backgrounds + TextColours + Borders + Brand + Hover[..1]
    ensures TokenRules[20] == Hover[1]
  {
  }

  /** The text the second hover rule sees has no `bg-gray-100`. */
  lemma Gray100GoneBeforeHover(s: string)
    ensures !Contains(ApplyAll(TokenRules[..20], s), "bg-gray-100")
  {
    var w := "bg-gray-100";
    var u1 := ApplyAll(Backgrounds, s);
    var u2 := ApplyAll(TextColours, u1);
    var u3 := ApplyAll(Borders, u2);
    var u4 := ApplyAll(Brand, u3);
    Gray100Gone(s);
    TextColoursKeepGray100Out();
    RulesKeepAbsent(TextColours, u1, w);
    BordersKeepGray100Out(u2);
    BrandKeepsGray100Out();
    RulesKeepAbsent(Brand, u3, w);
    HoverKeepsGray100Out();
    RulesKeepAbsent(Hover[..1], u4, w);
    HoverAt20();
    ApplyAllAppend(Backgrounds + TextColours + Borders + Brand, Hover[..1], s);
    ApplyAllAppend(Backgrounds + TextColours + Borders, Brand, s);
    ApplyAllAppend(Backgrounds + TextColours, Borders, s);
    ApplyAllAppend(Backgrounds, TextColours, s);
  }

  /** The background rules have already replaced every `bg-gray-100` and no
      rule in between brings one back, so the second hover rule never fires:
      dropping it from the pass changes no output. */
  lemma HoverGray100IsDead(s: string)
    ensures ApplyAll(TokenRules, s) == ApplyAll(TokenRules[..20] + TokenRules[21..], s)
  {
    Gray100GoneBeforeHover(s);
    HoverAt20();
    HoverGray100Idle(ApplyAll(TokenRules[..20], s));
    DeadRule(TokenRules, 20, s);
  }
}
