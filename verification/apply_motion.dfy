/** The motion pass: a second list of substitutions that appends transition
    classes to `className` attributes, grouped into cards, tabs, inputs and
    hover effects, with a platform profile deciding whether cards take part. */
module Motion {
  import opened Text
  import opened Rewrite

  /** The parts every transition suffix is built from. */
  const TransitionAll: string := " transition-all"
  const Standard: string := " ease-standard"
  /** The suffix appended to tab buttons, inputs, text areas and `hover:bg-` attributes. */
  const FastAll: string := TransitionAll + " duration-fast" + Standard
  /** The suffix appended to `hover:shadow-` attributes. */
  const MediumAll: string := TransitionAll + " duration-medium" + Standard
  /** The lift effect the card suffix adds after the medium transition. */
  const Raise: string := " hover:-translate-y-1"
  const ShadowLg: string := " hover:shadow-lg"
  const Lift: string := Raise + ShadowLg
  /** The suffix appended to cards. */
  const CardSuffix: string := MediumAll + Lift

  /** The button patterns the script builds. No part of the pass applies them. */
  const ButtonPatterns: seq<Pattern> := [
    ClassAttr("bg-primary", " transition-transform duration-fast ease-standard active:scale-press hover:scale-hover", false),
    TagClass("button", ["transition", "active:scale"], " transition-transform duration-fast ease-standard active:scale-press")
  ]

  /** At most five cards, and none once the file holds a lift effect. */
  const CardRule: Rule := Rule(ClassAttr("bg-bg-card", CardSuffix, false), UpTo(5), Without("hover:-translate-y"))

  /** At most one tab button, only in a file that sets an active tab and has no
      `transition-all` anywhere. */
  const TabRule: Rule := Rule(TabButton(FastAll), UpTo(1), WithAndWithout("setActiveTab", "transition-all"))

  /** At most ten inputs, then at most ten text areas, each skipped when
      `transition` follows on the same line. */
  const InputRules: seq<Rule> := [
    Rule(TagClass("input", ["transition"], FastAll), UpTo(10), Always),
    Rule(TagClass("textarea", ["transition"], FastAll), UpTo(10), Always)
  ]

  /** Every `hover:bg-` and then every `hover:shadow-` attribute not already
      followed by ` transition`. */
  const HoverRules: seq<Rule> := [
    Rule(ClassAttr("hover:bg-", FastAll, true), Unlimited, Always),
    Rule(ClassAttr("hover:shadow-", MediumAll, true), Unlimited, Always)
  ]

  /** The profiles for which cards are rewritten. */
  predicate LiftsCards(platform: string)
  {
    platform == "student" || platform == "organizer"
  }

  /** The rules run for a profile, in order. */
  function MotionRules(platform: string): (rules: seq<Rule>)
    ensures |rules| == if LiftsCards(platform) then 6 else 5
  {
    (if LiftsCards(platform) then [CardRule] else []) + [TabRule] + InputRules + HoverRules
  }

  /** `apply_motion_tokens` without the file read and write. */
  method ApplyMotionTokens(content: string, platform: string) returns (out: string, ok: bool)
    ensures out == ApplyAll(MotionRules(platform), content)
    ensures ok
  {
    out := content;
    var cards: seq<Rule> := if LiftsCards(platform) then [CardRule] else [];
    if LiftsCards(platform) {
      out := Apply(cards, out);
    }
    assert out == ApplyAll(cards, content);
    out := Apply([TabRule], out);
    ApplyAllAppend(cards, [TabRule], content);
    out := Apply(InputRules, out);
    ApplyAllAppend(cards + [TabRule], InputRules, content);
    out := Apply(HoverRules, out);
    ApplyAllAppend(cards + [TabRule] + InputRules, HoverRules, content);
    ok := true;
  }

  /** Every rule of the pass only inserts text before closing quotes. */
  lemma AllInsertions(platform: string)
    ensures forall r :: r in MotionRules(platform) ==> IsInsertion(r.pattern)
  {
  }

  lemma RuleIsInsertion(platform: string, i: nat)
    requires i < |MotionRules(platform)|
    ensures IsInsertion(MotionRules(platform)[i].pattern)
  {
    AllInsertions(platform);
    assert MotionRules(platform)[i] in MotionRules(platform);
  }

  /** Each step keeps every character of its input and only adds its suffix
      just before closing quotes of the input. */
  lemma StepOnlyInserts(platform: string, i: nat, s: string)
    requires i < |MotionRules(platform)|
    ensures var r := MotionRules(platform)[i];
      ApplyRule(r, s) == s ||
      var qs := Positions(Hits(r.pattern, s, r.limit));
      QuotesFrom(s, 0, qs) && Ascending(qs) && Within(qs, 0, |s|) &&
      ApplyRule(r, s) == InsertBefore(s, 0, qs, Inserted(r.pattern))
  {
    var r := MotionRules(platform)[i];
    RuleIsInsertion(platform, i);
    InsertionOnly(r.pattern, s, r.limit);
  }

  // ---------------------------------------------------------------------------
  // Profiles and guards
  // ---------------------------------------------------------------------------

  /** Any profile other than `student` or `organizer` leaves cards alone and
      runs the remaining rules without complaint. */
  lemma OtherProfilesSkipCards(platform: string, s: string)
    requires !LiftsCards(platform)
    ensures MotionRules(platform) == [TabRule] + InputRules + HoverRules
    ensures ApplyAll(MotionRules(platform), s) == ApplyAll(MotionRules("admin"), s)
    ensures CardRule !in MotionRules(platform)
  {
    assert MotionRules(platform) == MotionRules("admin");
    CardRuleIsOnlyCard();
  }

  lemma CardRuleIsOnlyCard()
    ensures CardRule !in [TabRule] + InputRules + HoverRules
  {
    var rest := [TabRule] + InputRules + HoverRules;
    assert |CardRule.pattern.needle| == 10;
    assert |HoverRules[0].pattern.needle| == 9 && |HoverRules[1].pattern.needle| == 13;
    assert forall j :: 0 <= j < |rest| ==> rest[j] != CardRule;
  }

  /** The card guard looks at the whole file: once a lift effect is anywhere,
      no card changes. */
  lemma CardGuardIsWholeFile(s: string)
    requires Occurs(s, "hover:-translate-y")
    ensures ApplyRule(CardRule, s) == s
  {
  }

  /** The card suffix holds the marker the card guard tests for. */
  lemma CardSuffixHasLift()
    ensures Contains(CardSuffix, "hover:-translate-y")
  {
    var tail := "hover:-translate-y-1";
    assert Raise == " " + tail;
    assert StartsAt(tail, 0, "hover:-translate-y") by {
      assert tail[..18] == "hover:-translate-y";
    }
    ContainsInConcat(" ", tail, "hover:-translate-y");
    ContainsInConcat(Raise, ShadowLg, "hover:-translate-y");
    ContainsInConcat(MediumAll, Lift, "hover:-translate-y");
  }

  /** A second card pass changes nothing. */
  lemma CardsOnce(s: string)
    ensures ApplyRule(CardRule, ApplyRule(CardRule, s)) == ApplyRule(CardRule, s)
  {
    CardSuffixHasLift();
    GuardedIdempotent(CardRule, s);
  }

  /** The card pass rewrites at most five attributes, and exactly the first
      five that an unlimited pass would rewrite, in scan order. */
  lemma CardsCapped(s: string)
    ensures |Hits(CardRule.pattern, s, CardRule.limit)| <= 5
    ensures var all := Hits(CardRule.pattern, s, Unlimited);
      Hits(CardRule.pattern, s, CardRule.limit) == all[..if 5 < |all| then 5 else |all|]
  {
    HitsChain(CardRule.pattern, s, 0, CardRule.limit);
    CapTakesFirst(CardRule.pattern, s, 0, 5);
  }

  /** The tab rule fires only in a file that mentions `setActiveTab` and has
      no `transition-all`, and then on at most one button. */
  lemma TabGuard(s: string)
    ensures ApplyRule(TabRule, s) != s ==> Occurs(s, "setActiveTab") && !Occurs(s, "transition-all")
    ensures |Hits(TabRule.pattern, s, TabRule.limit)| <= 1
  {
    HitsChain(TabRule.pattern, s, 0, TabRule.limit);
  }

  /** The fast suffix holds the marker the tab guard tests for. */
  lemma FastAllHasTransitionAll()
    ensures Contains(FastAll, "transition-all")
  {
    TransitionAllHasMarker();
    ContainsInConcat(TransitionAll, " duration-fast", "transition-all");
    ContainsInConcat(TransitionAll + " duration-fast", Standard, "transition-all");
  }

  lemma TransitionAllHasMarker()
    ensures Contains(TransitionAll, "transition-all")
  {
    var tail := "transition-all";
    assert TransitionAll == " " + tail;
    assert StartsAt(tail, 0, tail);
    ContainsInConcat(" ", tail, tail);
  }

  /** The tab suffix blocks its own guard, so a second tab pass changes nothing. */
  lemma TabOnce(s: string)
    ensures ApplyRule(TabRule, ApplyRule(TabRule, s)) == ApplyRule(TabRule, s)
  {
    FastAllHasTransitionAll();
    GuardedIdempotent(TabRule, s);
  }

  /** Each input rule rewrites at most ten tags, the first ten in scan order. */
  lemma InputsCapped(i: nat, s: string)
    requires i < |InputRules|
    ensures |Hits(InputRules[i].pattern, s, UpTo(10))| <= 10
    ensures var all := Hits(InputRules[i].pattern, s, Unlimited);
      Hits(InputRules[i].pattern, s, UpTo(10)) == all[..if 10 < |all| then 10 else |all|]
  {
    HitsChain(InputRules[i].pattern, s, 0, UpTo(10));
    CapTakesFirst(InputRules[i].pattern, s, 0, 10);
  }

  /** An input or textarea tag is skipped when every `className="` inside
      it has an empty value or `transition` on the rest of its line: the
      lookahead's `.*` stops at the newline, so `transition` on a later line
      does not block, and on the same line it does even outside the tag. */
  lemma InputSkippedPerLine(r: Rule, s: string, k: nat)
    requires r in InputRules && k <= |s| && StartsAt(s, k, "<" + r.pattern.tag)
    requires NoClassFits(s, k + |r.pattern.tag| + 1, IndexOfFrom(s, k + |r.pattern.tag| + 1, '>'), ["transition"], true)
    ensures MatchAt(r.pattern, s, k).None?
  {
    assert r.pattern.TagClass? && r.pattern.blockers == ["transition"];
    TagClassSkipped(r.pattern.tag, r.pattern.blockers, r.pattern.suffix, s, k);
  }

  /** An input or textarea tag whose some `className="` has no `transition`
      on the rest of its line is rewritten. */
  lemma InputTakenPerLine(r: Rule, s: string, k: nat, y: nat)
    requires r in InputRules && k <= |s| && StartsAt(s, k, "<" + r.pattern.tag)
    requires var lo := k + |r.pattern.tag| + 1;
      lo <= y <= IndexOfFrom(s, lo, '>') && ClassOk(s, y, ["transition"], true)
    ensures MatchAt(r.pattern, s, k).Some?
  {
    assert r.pattern.TagClass? && r.pattern.blockers == ["transition"];
    TagClassFound(r.pattern.tag, r.pattern.blockers, r.pattern.suffix, s, k, y);
  }

  // ---------------------------------------------------------------------------
  // What the pass never creates
  // ---------------------------------------------------------------------------

  /** The press and hover scale classes of the unused button patterns. */
  predicate ScaleClass(w: string)
  {
    w == "active:scale-press" || w == "hover:scale-hover"
  }

  lemma StandardChars()
    ensures 'c' !in Standard && 'h' !in Standard && 'b' !in Standard
    ensures '"' !in Standard && '<' !in Standard
    ensures 'a' !in Standard[|Standard| - 1..] && 'h' !in Standard[|Standard| - 7..]
  {
  }

  lemma TransitionAllChars()
    ensures TransitionAll[0] == ' '
    ensures 'c' !in TransitionAll && 'h' !in TransitionAll && 'b' !in TransitionAll
    ensures '"' !in TransitionAll && '<' !in TransitionAll
  {
  }

  lemma FastAllChars()
    ensures ' ' == FastAll[0] && 'c' !in FastAll && 'h' !in FastAll
    ensures '"' !in FastAll && '<' !in FastAll
    ensures 'a' !in FastAll[|FastAll| - 1..] && 'h' !in FastAll[|FastAll| - 7..]
  {
    StandardChars();
    TransitionAllChars();
    assert FastAll[|FastAll| - 7..] == Standard[|Standard| - 7..];
  }

  lemma FastAllQuoteFree()
    ensures '"' !in FastAll
  {
    FastAllChars();
  }

  lemma MediumAllChars()
    ensures ' ' == MediumAll[0] && 'c' !in MediumAll && 'h' !in MediumAll && 'b' !in MediumAll
    ensures '"' !in MediumAll && '<' !in MediumAll
    ensures 'a' !in MediumAll[|MediumAll| - 1..] && 'h' !in MediumAll[|MediumAll| - 7..]
  {
    StandardChars();
    TransitionAllChars();
    assert MediumAll[|MediumAll| - 7..] == Standard[|Standard| - 7..];
  }

  lemma RaiseChars()
    ensures 'c' !in Raise && 'b' !in Raise && '"' !in Raise && '<' !in Raise
  {
  }

  lemma ShadowLgChars()
    ensures 'c' !in ShadowLg && 'b' !in ShadowLg && '"' !in ShadowLg && '<' !in ShadowLg
    ensures 'a' !in ShadowLg[|ShadowLg| - 1..] && 'h' !in ShadowLg[|ShadowLg| - 7..]
  {
  }

  lemma LiftChars()
    ensures 'c' !in Lift && 'b' !in Lift && '"' !in Lift && '<' !in Lift
    ensures 'a' !in Lift[|Lift| - 1..] && 'h' !in Lift[|Lift| - 7..]
  {
    RaiseChars();
    ShadowLgChars();
    assert Lift[|Lift| - 7..] == ShadowLg[|ShadowLg| - 7..];
  }

  lemma CardSuffixChars()
    ensures CardSuffix[0] == ' ' && 'c' !in CardSuffix && 'b' !in CardSuffix
    ensures '"' !in CardSuffix && '<' !in CardSuffix
    ensures 'a' !in CardSuffix[|CardSuffix| - 1..] && 'h' !in CardSuffix[|CardSuffix| - 7..]
  {
    MediumAllChars();
    LiftChars();
    assert CardSuffix[|CardSuffix| - 7..] == Lift[|Lift| - 7..];
  }

  /** Neither scale class can overlap any suffix the pass inserts. */
  lemma ScaleAvoidsSuffixes(w: string)
    requires ScaleClass(w)
    ensures NeverOverlaps(w, FastAll) && NeverOverlaps(w, MediumAll) && NeverOverlaps(w, CardSuffix)
  {
    FastAllChars();
    MediumAllChars();
    CardSuffixChars();
    var t := if w == "active:scale-press" then 1 else 7;
    assert w[t] == 'c' && ' ' !in w;
    assert w[0] == 'a' || (w[0] == 'h' && t == 7);
    NoOverlapAround(w, FastAll, t, []);
    NoOverlapAround(w, MediumAll, t, []);
    NoOverlapAround(w, CardSuffix, t, []);
  }

  /** The button patterns are never applied: a file without `active:scale-press`
      or `hover:scale-hover` still lacks it after the pass, for every profile. */
  lemma ScaleNeverInserted(platform: string, s: string, w: string)
    requires ScaleClass(w) && !Contains(s, w)
    ensures !Contains(ApplyAll(MotionRules(platform), s), w)
  {
    ScaleAvoidsSuffixes(w);
    assert AllHarmless(w, HoverRules);
    assert AllHarmless(w, InputRules + HoverRules);
    assert AllHarmless(w, [TabRule] + InputRules + HoverRules);
    if LiftsCards(platform) {
      assert MotionRules(platform) == [CardRule] + ([TabRule] + InputRules + HoverRules);
    } else {
      assert MotionRules(platform) == [TabRule] + InputRules + HoverRules;
    }
    RulesKeepAbsent(MotionRules(platform), s, w);
  }

  /** Only the card group inserts a lift effect: under any other profile a
      file without `hover:-translate-y` still lacks it after the pass. */
  lemma LiftOnlyFromCards(platform: string, s: string)
    requires !LiftsCards(platform) && !Contains(s, "hover:-translate-y")
    ensures !Contains(ApplyAll(MotionRules(platform), s), "hover:-translate-y")
  {
    var w := "hover:-translate-y";
    FastAllChars();
    MediumAllChars();
    assert w[0] == 'h' && ' ' !in w;
    NoOverlapAround(w, FastAll, 0, []);
    NoOverlapAround(w, MediumAll, 0, []);
    assert MotionRules(platform) == [TabRule] + InputRules + HoverRules;
    assert AllHarmless(w, HoverRules);
    assert AllHarmless(w, InputRules + HoverRules);
    assert AllHarmless(w, [TabRule] + InputRules + HoverRules);
    RulesKeepAbsent(MotionRules(platform), s, w);
  }

  // ---------------------------------------------------------------------------
  // Repeated transitions
  // ---------------------------------------------------------------------------

  /** The `hover:bg-` rule appends its suffix to a lone attribute holding
      `hover:bg-`, whatever transition classes the attribute already has:
      the lookahead inspects the text after the closing quote, not the value. */
  lemma HoverBgAppends(v: string)
    requires '"' !in v && Contains(v, "hover:bg-")
    ensures ApplyRule(HoverRules[0], ClassOpen + v + "\"") == ClassOpen + v + FastAll + "\""
  {
    LoneAttribute("hover:bg-", FastAll, true, v, Unlimited);
  }

  /** Running the `hover:bg-` rule twice stacks two fast transitions on the
      same attribute. */
  lemma HoverBgStacks(v: string)
    requires '"' !in v && Contains(v, "hover:bg-")
    ensures var r := HoverRules[0];
      ApplyRule(r, ApplyRule(r, ClassOpen + v + "\"")) == ClassOpen + v + FastAll + FastAll + "\""
  {
    FastAllQuoteFree();
    AttributeStacks("hover:bg-", FastAll, true, v, Unlimited);
  }

  lemma MediumAllHasTransitionAll()
    ensures Contains(MediumAll, "transition-all")
  {
    TransitionAllHasMarker();
    ContainsInConcat(TransitionAll, " duration-medium", "transition-all");
    ContainsInConcat(TransitionAll + " duration-medium", Standard, "transition-all");
  }

  lemma LiftHasShadow()
    ensures Contains(Lift, "hover:shadow-")
  {
    var tail := "hover:shadow-lg";
    assert ShadowLg == " " + tail;
    assert StartsAt(tail, 0, "hover:shadow-") by {
      assert tail[..13] == "hover:shadow-";
    }
    ContainsInConcat(" ", tail, "hover:shadow-");
    ContainsInConcat(Raise, ShadowLg, "hover:shadow-");
  }

  /** The card rule on a lone card attribute without a lift effect. */
  lemma CardStep(r: Rule, v: string, s: string)
    requires r == CardRule && '"' !in v && Contains(v, "bg-bg-card") && s == ClassOpen + v + "\""
    requires !Contains(s, "hover:-translate-y")
    ensures ApplyRule(r, s) == ClassOpen + (v + CardSuffix) + "\""
  {
    AttributeHit("bg-bg-card", CardSuffix, false, v, UpTo(5), s);
    QuotedAssoc(v, CardSuffix, [], ClassOpen + (v + CardSuffix) + "\"", ClassOpen + v + CardSuffix + "\"");
  }

  /** A file holding `transition-all` keeps its tab buttons as they are. */
  lemma TabIdle(r: Rule, t: string)
    requires r == TabRule && Contains(t, "transition-all")
    ensures ApplyRule(r, t) == t
  {
  }

  /** A file without `<` opens no tag, so the input rules find nothing. */
  lemma InputsIdle(r: Rule, t: string)
    requires r in InputRules && '<' !in t
    ensures ApplyRule(r, t) == t
  {
    MissingChar(t, Lead(r.pattern), '<');
    NoLeadNoChange(r.pattern, t, UpTo(10));
  }

  /** Neither part of a card value with the card suffix holds `hover:bg-`,
      and the suffix cannot straddle it. */
  lemma CardValueLacksHoverBg(v: string)
    requires !Contains(v, "hover:bg-")
    ensures !Contains(v + CardSuffix, "hover:bg-")
  {
    var w := "hover:bg-";
    CardSuffixChars();
    assert w[6] == 'b' && ' ' !in w && w[0] == 'h';
    NoOverlapAround(w, CardSuffix, 6, []);
    assert v + CardSuffix + [] == v + CardSuffix;
    if Contains(v + CardSuffix + [], w) {
      var j :| 0 <= j <= |v + CardSuffix + []| && StartsAt(v + CardSuffix + [], j, w);
      Straddle(v, CardSuffix, [], w, j);
    }
  }

  /** The `hover:bg-` rule leaves a lone attribute without `hover:bg-` alone. */
  lemma HoverBgIdle(r: Rule, v: string, t: string)
    requires r == HoverRules[0] && '"' !in v && !Contains(v, "hover:bg-") && t == ClassOpen + v + "\""
    ensures ApplyRule(r, t) == t
  {
    LoneAttribute("hover:bg-", FastAll, true, v, Unlimited);
  }

  /** The `hover:shadow-` rule appends the medium transition to a lone
      attribute holding `hover:shadow-`. */
  lemma HoverShadowHit(r: Rule, v: string, t: string)
    requires r == HoverRules[1] && '"' !in v && Contains(v, "hover:shadow-") && t == ClassOpen + v + "\""
    ensures ApplyRule(r, t) == ClassOpen + v + MediumAll + "\""
  {
    AttributeHit("hover:shadow-", MediumAll, true, v, Unlimited, t);
  }

  /** The card value holds `transition-all` and `hover:shadow-` from its suffix. */
  lemma CardValueMarkers(v: string)
    ensures Contains(ClassOpen + (v + CardSuffix) + "\"", "transition-all")
    ensures Contains(v + CardSuffix, "hover:shadow-")
  {
    MediumAllHasTransitionAll();
    ContainsInConcat(MediumAll, Lift, "transition-all");
    ContainsInConcat(v, CardSuffix, "transition-all");
    ContainsInConcat(ClassOpen, v + CardSuffix, "transition-all");
    ContainsInConcat(ClassOpen + (v + CardSuffix), "\"", "transition-all");
    LiftHasShadow();
    ContainsInConcat(MediumAll, Lift, "hover:shadow-");
    ContainsInConcat(v, CardSuffix, "hover:shadow-");
  }

  /** The rules of a card-lifting profile, one by one. */
  lemma LiftingRules(platform: string)
    requires LiftsCards(platform)
    ensures MotionRules(platform) == [CardRule, TabRule, InputRules[0], InputRules[1], HoverRules[0], HoverRules[1]]
  {
  }

  /** Under the `student` or `organizer` profile a lone card attribute that holds neither a
      lift effect nor `hover:bg-` first gets the card suffix, and then, since
      that suffix holds `hover:shadow-lg`, the `hover:shadow-` rule appends
      a second transition to the same attribute. */
  lemma CardGetsTwoTransitions(platform: string, v: string)
    requires LiftsCards(platform)
    requires '"' !in v && '<' !in v && Contains(v, "bg-bg-card") && !Contains(v, "hover:bg-")
    requires !Contains(ClassOpen + v + "\"", "hover:-translate-y")
    ensures ApplyAll(MotionRules(platform), ClassOpen + v + "\"") ==
      ClassOpen + v + CardSuffix + MediumAll + "\""
  {
    LiftingRules(platform);
    CardRun(MotionRules(platform), v);
  }

  /** The same run over the six rules of a card-lifting profile. */
  lemma CardRun(rs: seq<Rule>, v: string)
    requires rs == [CardRule, TabRule, InputRules[0], InputRules[1], HoverRules[0], HoverRules[1]]
    requires '"' !in v && '<' !in v && Contains(v, "bg-bg-card") && !Contains(v, "hover:bg-")
    requires !Contains(ClassOpen + v + "\"", "hover:-translate-y")
    ensures ApplyAll(rs, ClassOpen + v + "\"") == ClassOpen + v + CardSuffix + MediumAll + "\""
  {
    var s := ClassOpen + v + "\"";
    var t := ClassOpen + (v + CardSuffix) + "\"";
    var u := ClassOpen + (v + CardSuffix) + MediumAll + "\"";
    CardFirstSteps(rs, v);
    CardLastSteps(rs, v);
    SixSteps(rs, s, t, u);
    QuotedAssoc(v, CardSuffix, MediumAll, u, ClassOpen + v + CardSuffix + MediumAll + "\"");
  }

  /** The card rule adds the suffix; the tab and input rules then find nothing. */
  lemma CardFirstSteps(rs: seq<Rule>, v: string)
    requires rs == [CardRule, TabRule, InputRules[0], InputRules[1], HoverRules[0], HoverRules[1]]
    requires '"' !in v && '<' !in v && Contains(v, "bg-bg-card")
    requires !Contains(ClassOpen + v + "\"", "hover:-translate-y")
    ensures var t := ClassOpen + (v + CardSuffix) + "\"";
      && ApplyRule(rs[0], ClassOpen + v + "\"") == t
      && ApplyRule(rs[1], t) == t && ApplyRule(rs[2], t) == t && ApplyRule(rs[3], t) == t
  {
    CardStep(rs[0], v, ClassOpen + v + "\"");
    CardIdleSteps(rs[1], rs[2], rs[3], v);
  }

  lemma CardIdleSteps(tab: Rule, input: Rule, textarea: Rule, v: string)
    requires tab == TabRule && input == InputRules[0] && textarea == InputRules[1] && '<' !in v
    ensures var t := ClassOpen + (v + CardSuffix) + "\"";
      ApplyRule(tab, t) == t && ApplyRule(input, t) == t && ApplyRule(textarea, t) == t
  {
    var t := ClassOpen + (v + CardSuffix) + "\"";
    CardSuffixChars();
    CardValueMarkers(v);
    TabIdle(tab, t);
    assert '<' !in t;
    InputsIdle(input, t);
    InputsIdle(textarea, t);
  }

  /** The hover rules then skip `hover:bg-` and append to `hover:shadow-lg`. */
  lemma CardLastSteps(rs: seq<Rule>, v: string)
    requires rs == [CardRule, TabRule, InputRules[0], InputRules[1], HoverRules[0], HoverRules[1]]
    requires '"' !in v && !Contains(v, "hover:bg-")
    ensures var t := ClassOpen + (v + CardSuffix) + "\"";
      ApplyRule(rs[4], t) == t && ApplyRule(rs[5], t) == ClassOpen + (v + CardSuffix) + MediumAll + "\""
  {
    var v1 := v + CardSuffix;
    var t := ClassOpen + v1 + "\"";
    CardSuffixChars();
    CardValueMarkers(v);
    CardValueLacksHoverBg(v);
    HoverBgIdle(rs[4], v1, t);
    HoverShadowHit(rs[5], v1, t);
  }

  /** Chains the per-rule facts through a run of six rules. */
  lemma SixSteps(rs: seq<Rule>, s: string, t: string, u: string)
    requires |rs| == 6 && ApplyRule(rs[0], s) == t && ApplyRule(rs[5], t) == u
    requires ApplyRule(rs[1], t) == t && ApplyRule(rs[2], t) == t
    requires ApplyRule(rs[3], t) == t && ApplyRule(rs[4], t) == t
    ensures ApplyAll(rs, s) == u
  {
    var mid := [rs[1], rs[2], rs[3], rs[4]];
    assert rs == [rs[0]] + mid + [rs[5]];
    ApplyAllThrough(rs[0], mid, rs[5], s, t, u);
  }
}
