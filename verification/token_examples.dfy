/** What the substitutions of the design-token pass do to particular inputs,
    and what the pass as a whole does and does not promise. */
module TokenExamples {
  import opened Text
  import opened Rewrite
  import opened DesignTokens

  /** The `bg-white` rule keeps an opacity suffix: `/` is one of its delimiters. */
  lemma WhiteBackgroundKeepsSlash()
    ensures Sub(Delimited("bg-white", "bg-bg-card", true), "bg-white/80", Unlimited) == "bg-bg-card/80"
  {
    var s := "bg-white/80";
    assert s[..8] == "bg-white" && s[8] == '/';
    assert s[9..] == "80";
    SubSingle(Delimited("bg-white", "bg-bg-card", true), s, Unlimited, Hit(0, 8, 9));
    assert s[8..] == "/80";
  }

  /** The `bg-white` rule needs a delimiter after the word: a hyphen is not one. */
  lemma WhiteBackgroundNeedsDelimiter()
    ensures Sub(Delimited("bg-white", "bg-bg-card", true), "bg-white-x", Unlimited) == "bg-white-x"
  {
    var s := "bg-white-x";
    assert s[8] == '-';
    assert s[1..] == "g-white-x";
    Absent("g-white-x", "bg-white", [(5, 0)]);
    SubNothing(Delimited("bg-white", "bg-bg-card", true), s, Unlimited);
  }

  /** The `text-white` rule accepts only a quote or white space after the word,
      so an opacity suffix keeps the class as it is. */
  lemma WhiteTextRejectsSlash()
    ensures Sub(Delimited("text-white", "text-text-inverse", false), "text-white/80", Unlimited) == "text-white/80"
  {
    var s := "text-white/80";
    assert s[10] == '/';
    assert s[1..] == "ext-white/80";
    Absent("ext-white/80", "text-white", [(2, 1), (7, 1)]);
    SubNothing(Delimited("text-white", "text-text-inverse", false), s, Unlimited);
  }

  /** The `text-white` rule keeps the quote that ends the attribute. */
  lemma WhiteTextKeepsQuote()
    ensures Sub(Delimited("text-white", "text-text-inverse", false), "text-white\"", Unlimited) == "text-text-inverse\""
  {
    var s := "text-white\"";
    assert s[..10] == "text-white" && s[10] == '"';
    assert s[11..] == [];
    SubSingle(Delimited("text-white", "text-text-inverse", false), s, Unlimited, Hit(0, 10, 11));
    assert s[10..] == "\"";
  }

  /** Plain replacement ignores word boundaries: `bg-gray-500` loses its
      `bg-gray-50` prefix and keeps a stray `0`. */
  lemma GrayLiteralIgnoresBoundary()
    ensures Sub(Literal("bg-gray-50", "bg-bg-muted"), "bg-gray-500", Unlimited) == "bg-bg-muted0"
  {
    var s := "bg-gray-500";
    assert s[..10] == "bg-gray-50";
    assert s[10..] == "0";
    SubSingle(Literal("bg-gray-50", "bg-bg-muted"), s, Unlimited, Hit(0, 10, 10));
  }

  /** The same happens to `bg-green-500` under the `bg-green-50` rule. */
  lemma GreenLiteralIgnoresBoundary()
    ensures Sub(Literal("bg-green-50", "bg-successSoft"), "bg-green-500", Unlimited) == "bg-successSoft0"
  {
    var s := "bg-green-500";
    assert s[..11] == "bg-green-50";
    assert s[11..] == "0";
    SubSingle(Literal("bg-green-50", "bg-successSoft"), s, Unlimited, Hit(0, 11, 11));
  }

  /** The delimited `bg-brand` rule leaves `bg-brand-soft` alone ... */
  lemma BrandSoftNotDelimited()
    ensures Sub(Delimited("bg-brand", "bg-primary", false), "bg-brand-soft", Unlimited) == "bg-brand-soft"
  {
    var s := "bg-brand-soft";
    assert s[8] == '-';
    assert s[1..] == "g-brand-soft";
    Absent("g-brand-soft", "bg-brand", [(2, 1)]);
    SubNothing(Delimited("bg-brand", "bg-primary", false), s, Unlimited);
  }

  /** ... so the later plain `bg-brand-soft` rule still sees it. */
  lemma BrandSoftRewritten()
    ensures Sub(Literal("bg-brand-soft", "bg-primarySoft"), "bg-brand-soft", Unlimited) == "bg-primarySoft"
  {
    var s := "bg-brand-soft";
    assert s[..13] == s && s[13..] == [];
    SubSingle(Literal("bg-brand-soft", "bg-primarySoft"), s, Unlimited, Hit(0, 13, 13));
  }

  /** After the plain `text-brand` rule no `text-brand` remains, whatever
      followed it. */
  lemma TextBrandGone(t: string)
    ensures !Contains(Sub(Literal("text-brand", "text-primary"), t, Unlimited), "text-brand")
  {
    NoOverlapBy("text-brand", "text-primary", 'p', [(3, 1)]);
    ReplaceRemoves("text-brand", "text-primary", t);
  }

  /** `text-red-` followed by digits becomes `text-error`, whatever the shade. */
  lemma RedShadeToError(ds: string, rest: string)
    requires ds != [] && forall i :: 0 <= i < |ds| ==> IsPyDigit(ds[i])
    requires rest == [] || !IsPyDigit(rest[0])
    requires !Contains(rest, "text-red-")
    ensures Sub(DigitRun("text-red-", "text-error"), "text-red-" + ds + rest, Unlimited) == "text-error" + rest
  {
    DigitRunTakesAllDigits("text-red-", "text-error", ds, rest);
  }

  /** `text-green-` followed by digits becomes `text-success`. */
  lemma GreenShadeToSuccess(ds: string, rest: string)
    requires ds != [] && forall i :: 0 <= i < |ds| ==> IsPyDigit(ds[i])
    requires rest == [] || !IsPyDigit(rest[0])
    requires !Contains(rest, "text-green-")
    ensures Sub(DigitRun("text-green-", "text-success"), "text-green-" + ds + rest, Unlimited) == "text-success" + rest
  {
    DigitRunTakesAllDigits("text-green-", "text-success", ds, rest);
  }

  /** The prefixes every substitution's target starts with. */
  const ClassPrefixes: seq<string> := ["bg-", "text-", "border-", "focus:", "hover:"]

  lemma BackgroundsUntouched(s: string)
    requires NoneOccur(s, ClassPrefixes)
    ensures ApplyAll(Backgrounds, s) == s
  {
    assert StartsWithAnyOf(Lead(Backgrounds[2].pattern), ClassPrefixes[0..]);
    assert LeadsStartWithAnyOf(Backgrounds[2..], ClassPrefixes);
    assert StartsWithAnyOf(Lead(Backgrounds[1].pattern), ClassPrefixes[0..]);
    assert LeadsStartWithAnyOf(Backgrounds[1..], ClassPrefixes);
    assert StartsWithAnyOf(Lead(Backgrounds[0].pattern), ClassPrefixes[0..]);
    assert LeadsStartWithAnyOf(Backgrounds, ClassPrefixes);
    PrefixedLeadsAbsent(Backgrounds, ClassPrefixes, s);
    UntouchedByRules(Backgrounds, s);
  }

  lemma TextColoursUntouched(s: string)
    requires NoneOccur(s, ClassPrefixes)
    ensures ApplyAll(TextColours, s) == s
  {
    assert StartsWithAnyOf(Lead(TextColours[5].pattern), ClassPrefixes[1..]);
    assert LeadsStartWithAnyOf(TextColours[5..], ClassPrefixes);
    assert StartsWithAnyOf(Lead(TextColours[4].pattern), ClassPrefixes[1..]);
    assert LeadsStartWithAnyOf(TextColours[4..], ClassPrefixes);
    assert StartsWithAnyOf(Lead(TextColours[3].pattern), ClassPrefixes[1..]);
    assert LeadsStartWithAnyOf(TextColours[3..], ClassPrefixes);
    assert StartsWithAnyOf(Lead(TextColours[2].pattern), ClassPrefixes[1..]);
    assert LeadsStartWithAnyOf(TextColours[2..], ClassPrefixes);
    assert StartsWithAnyOf(Lead(TextColours[1].pattern), ClassPrefixes[1..]);
    assert LeadsStartWithAnyOf(TextColours[1..], ClassPrefixes);
    assert StartsWithAnyOf(Lead(TextColours[0].pattern), ClassPrefixes[1..]);
    assert LeadsStartWithAnyOf(TextColours, ClassPrefixes);
    PrefixedLeadsAbsent(TextColours, ClassPrefixes, s);
    UntouchedByRules(TextColours, s);
  }

  lemma BordersUntouched(s: string)
    requires NoneOccur(s, ClassPrefixes)
    ensures ApplyAll(Borders, s) == s
  {
    assert StartsWithAnyOf(Lead(Borders[2].pattern), ClassPrefixes[2..]);
    assert LeadsStartWithAnyOf(Borders[2..], ClassPrefixes);
    assert StartsWithAnyOf(Lead(Borders[1].pattern), ClassPrefixes[2..]);
    assert LeadsStartWithAnyOf(Borders[1..], ClassPrefixes);
    assert StartsWithAnyOf(Lead(Borders[0].pattern), ClassPrefixes[2..]);
    assert LeadsStartWithAnyOf(Borders, ClassPrefixes);
    PrefixedLeadsAbsent(Borders, ClassPrefixes, s);
    UntouchedByRules(Borders, s);
  }

  lemma BrandUntouched(s: string)
    requires NoneOccur(s, ClassPrefixes)
    ensures ApplyAll(Brand, s) == s
  {
    assert StartsWithAnyOf(Lead(Brand[6].pattern), ClassPrefixes[2..]);
    assert LeadsStartWithAnyOf(Brand[6..], ClassPrefixes);
    assert StartsWithAnyOf(Lead(Brand[5].pattern), ClassPrefixes[3..]);
    assert LeadsStartWithAnyOf(Brand[5..], ClassPrefixes);
    assert StartsWithAnyOf(Lead(Brand[4].pattern), ClassPrefixes[3..]);
    assert LeadsStartWithAnyOf(Brand[4..], ClassPrefixes);
    assert StartsWithAnyOf(Lead(Brand[3].pattern), ClassPrefixes[1..]);
    assert LeadsStartWithAnyOf(Brand[3..], ClassPrefixes);
    assert StartsWithAnyOf(Lead(Brand[2].pattern), ClassPrefixes[0..]);
    assert LeadsStartWithAnyOf(Brand[2..], ClassPrefixes);
    assert StartsWithAnyOf(Lead(Brand[1].pattern), ClassPrefixes[1..]);
    assert LeadsStartWithAnyOf(Brand[1..], ClassPrefixes);
    assert StartsWithAnyOf(Lead(Brand[0].pattern), ClassPrefixes[0..]);
    assert LeadsStartWithAnyOf(Brand, ClassPrefixes);
    PrefixedLeadsAbsent(Brand, ClassPrefixes, s);
    UntouchedByRules(Brand, s);
  }

  lemma HoverUntouched(s: string)
    requires NoneOccur(s, ClassPrefixes)
    ensures ApplyAll(Hover, s) == s
  {
    assert StartsWithAnyOf(Lead(Hover[2].pattern), ClassPrefixes[4..]);
    assert LeadsStartWithAnyOf(Hover[2..], ClassPrefixes);
    assert StartsWithAnyOf(Lead(Hover[1].pattern), ClassPrefixes[4..]);
    assert LeadsStartWithAnyOf(Hover[1..], ClassPrefixes);
    assert StartsWithAnyOf(Lead(Hover[0].pattern), ClassPrefixes[4..]);
    assert LeadsStartWithAnyOf(Hover, ClassPrefixes);
    PrefixedLeadsAbsent(Hover, ClassPrefixes, s);
    UntouchedByRules(Hover, s);
  }

  lemma ErrorsUntouched(s: string)
    requires NoneOccur(s, ClassPrefixes)
    ensures ApplyAll(Errors, s) == s
  {
    assert StartsWithAnyOf(Lead(Errors[4].pattern), ClassPrefixes[2..]);
    assert LeadsStartWithAnyOf(Errors[4..], ClassPrefixes);
    assert LeadsStartWithAnyOf(Errors[3..], ClassPrefixes);
    assert StartsWithAnyOf(Lead(Errors[2].pattern), ClassPrefixes[4..]);
    assert LeadsStartWithAnyOf(Errors[2..], ClassPrefixes);
    assert StartsWithAnyOf(Lead(Errors[0].pattern), ClassPrefixes[1..]);
    assert LeadsStartWithAnyOf(Errors[1..], ClassPrefixes);
    assert LeadsStartWithAnyOf(Errors, ClassPrefixes);
    PrefixedLeadsAbsent(Errors, ClassPrefixes, s);
    UntouchedByRules(Errors, s);
  }

  lemma SuccessesUntouched(s: string)
    requires NoneOccur(s, ClassPrefixes)
    ensures ApplyAll(Successes, s) == s
  {
    assert StartsWithAnyOf(Lead(Successes[4].pattern), ClassPrefixes[2..]);
    assert LeadsStartWithAnyOf(Successes[4..], ClassPrefixes);
    assert StartsWithAnyOf(Lead(Successes[3].pattern), ClassPrefixes[2..]);
    assert LeadsStartWithAnyOf(Successes[3..], ClassPrefixes);
    assert StartsWithAnyOf(Lead(Successes[2].pattern), ClassPrefixes[0..]);
    assert LeadsStartWithAnyOf(Successes[2..], ClassPrefixes);
    assert StartsWithAnyOf(Lead(Successes[1].pattern), ClassPrefixes[0..]);
    assert LeadsStartWithAnyOf(Successes[1..], ClassPrefixes);
    assert StartsWithAnyOf(Lead(Successes[0].pattern), ClassPrefixes[1..]);
    assert LeadsStartWithAnyOf(Successes, ClassPrefixes);
    PrefixedLeadsAbsent(Successes, ClassPrefixes, s);
    UntouchedByRules(Successes, s);
  }

  lemma WarningsUntouched(s: string)
    requires NoneOccur(s, ClassPrefixes)
    ensures ApplyAll(Warnings, s) == s
  {
    assert LeadsStartWithAnyOf(Warnings, ClassPrefixes);
    PrefixedLeadsAbsent(Warnings, ClassPrefixes, s);
    UntouchedByRules(Warnings, s);
  }

  /** A file that mentions none of the class prefixes comes out of the pass
      exactly as it went in. */
  lemma TokenFreeUntouched(s: string)
    requires NoneOccur(s, ClassPrefixes)
    ensures ApplyAll(TokenRules, s) == s
  {
    Sections(s);
    BackgroundsUntouched(s);
    TextColoursUntouched(s);
    BordersUntouched(s);
    BrandUntouched(s);
    HoverUntouched(s);
    ErrorsUntouched(s);
    SuccessesUntouched(s);
    WarningsUntouched(s);
  }

  // A second run is not always a no-op.

  /** A file where `border-gray-200` runs straight into `ext-gray-900`. */
  const Glued: string := "border-gray-200ext-gray-900"
  /** What the first run makes of it: the border rule completes a `text-gray-900`. */
  const GluedOnce: string := "border-border-defaultext-gray-900"

  /** The text-colour rules of the first run meet no `text-gray-900` ... */
  lemma GluedLacksGray900()
    ensures !Contains(Glued, "text-gray-900")
  {
    Absent(Glued, "text-gray-900", [(17, 0)]);
  }

  /** ... but the text the first run leaves holds one. */
  lemma GluedOnceHasGray900()
    ensures Contains(GluedOnce, "text-gray-900")
  {
    assert StartsAt(GluedOnce, 20, "text-gray-900") by {
      assert GluedOnce[20..33] == "text-gray-900";
    }
  }

  lemma GluedOnceLacksRed()
    ensures !Contains(GluedOnce, "text-red-")
  {
    assert GluedOnce[0..20] == "border-border-defaul";
    assert GluedOnce[21..23] == "ex";
    assert GluedOnce[24..] == "-gray-900";
    assert Excluded(GluedOnce, "text-red-", 24, []);
    assert Excluded(GluedOnce, "text-red-", 21, [(23, 1)]);
    Absent(GluedOnce, "text-red-", [(20, 5), (23, 1)]);
  }

  /** A leading `border-gray-200` with no other `b` after it is the one
      occurrence the first border rule rewrites. */
  lemma LeadingGray200(s: string, rest: string)
    requires s == "border-gray-200" + rest && 'b' !in rest
    ensures ApplyRule(Borders[0], s) == "border-border-default" + rest
  {
    var p := Literal("border-gray-200", "border-border-default");
    assert Borders[0] == Lit("border-gray-200", "border-border-default");
    assert StartsAt(s, 0, "border-gray-200") by {
      assert s[0..15] == "border-gray-200";
    }
    assert FindFrom(p, s, 0) == Some(0);
    assert s[15..] == rest;
    FindSkips(p, s, 15, |s|);
    assert FindFrom(p, s, |s|).None?;
    assert SubFrom(p, s, 15, Unlimited) == rest;
  }

  /** A trailing `text-gray-900` with no `t` before it is the one occurrence
      the first text-colour rule rewrites. */
  lemma TrailingGray900(s: string, pre: string)
    requires s == pre + "text-gray-900" && 't' !in pre
    ensures ApplyRule(TextColours[0], s) == pre + "text-text-primary"
  {
    var p := Literal("text-gray-900", "text-text-primary");
    var k := |pre|;
    assert TextColours[0] == Lit("text-gray-900", "text-text-primary");
    assert s[0..k] == pre;
    FindSkips(p, s, 0, k);
    assert StartsAt(s, k, "text-gray-900") by {
      assert s[k..k + 13] == "text-gray-900";
    }
    assert FindFrom(p, s, k) == Some(k);
    assert FindFrom(p, s, |s|).None?;
    assert SubFrom(p, s, |s|, Unlimited) == [];
    assert s[k + 13..k + 13] == [];
  }

  lemma BackgroundsHaveChars()
    ensures LeadsHaveAnyOf(Backgrounds, "w51")
  {
  }

  /** Text without `w`, `5` or `1` passes the background rules untouched. */
  lemma BackgroundsIdle(s: string)
    requires !HasAnyOf(s, "w51")
    ensures ApplyAll(Backgrounds, s) == s
  {
    BackgroundsHaveChars();
    RulesIdleWithout(Backgrounds, "w51", s);
  }

  lemma RestOfTextColoursHaveChars()
    ensures LeadsHaveAnyOf(TextColours[1..], "8765w")
  {
    assert LeadsHaveAnyOf(TextColours[5..], "8765w");
    assert LeadsHaveAnyOf(TextColours[4..], "8765w");
    assert LeadsHaveAnyOf(TextColours[3..], "8765w");
    assert LeadsHaveAnyOf(TextColours[2..], "8765w");
  }

  /** Text without `text-gray-900`, `8`, `7`, `6`, `5` or `w` passes the text-colour rules untouched. */
  lemma TextColoursIdle(s: string)
    requires !Contains(s, "text-gray-900")
    requires !HasAnyOf(s, "8765w")
    ensures ApplyAll(TextColours, s) == s
  {
    RestOfTextColoursHaveChars();
    RulesIdleWithout(TextColours[1..], "8765w", s);
    NoLeadNoChange(TextColours[0].pattern, s, TextColours[0].limit);
    assert ApplyAll(TextColours[..1], s) == s;
    assert TextColours == TextColours[..1] + TextColours[1..];
    ApplyAllAppend(TextColours[..1], TextColours[1..], s);
  }

  lemma RestOfBordersIdle(s: string)
    requires !HasAnyOf(s, "32")
    ensures ApplyAll(Borders[1..], s) == s
  {
    assert LeadsHaveAnyOf(Borders[2..], "32");
    RulesIdleWithout(Borders[1..], "32", s);
  }

  lemma BrandKeepsCharsOut()
    ensures AllKeepCharsOut(Brand, "g5")
  {
    NoneOf("text-primary", "g5");
    NoneOf("focus:border-primary", "g5");
    NoneOf("border-primary", "g5");
    assert KeepsCharsOut(Brand[6], "g5");
    assert KeepsCharsOut(Brand[5], "g5");
    assert KeepsCharsOut(Brand[3], "g5");
    assert KeepsCharsOut(Brand[1], "g5");
    assert AllKeepCharsOut(Brand[6..], "g5");
    assert AllKeepCharsOut(Brand[5..], "g5");
    assert AllKeepCharsOut(Brand[4..], "g5");
    assert AllKeepCharsOut(Brand[3..], "g5");
    assert AllKeepCharsOut(Brand[2..], "g5");
    assert AllKeepCharsOut(Brand[1..], "g5");
  }

  lemma BrandHaveChars()
    ensures LeadsHaveAnyOf(Brand, "ncp")
  {
    assert HasAnyOf(Lead(Brand[6].pattern), "p");
    assert LeadsHaveAnyOf(Brand[6..], "ncp");
    assert HasAnyOf(Lead(Brand[5].pattern), "ncp");
    assert LeadsHaveAnyOf(Brand[5..], "ncp");
    assert HasAnyOf(Lead(Brand[4].pattern), "ncp");
    assert LeadsHaveAnyOf(Brand[4..], "ncp");
    assert HasAnyOf(Lead(Brand[3].pattern), "ncp");
    assert LeadsHaveAnyOf(Brand[3..], "ncp");
    assert HasAnyOf(Lead(Brand[2].pattern), "ncp");
    assert LeadsHaveAnyOf(Brand[2..], "ncp");
    assert HasAnyOf(Lead(Brand[1].pattern), "ncp");
    assert LeadsHaveAnyOf(Brand[1..], "ncp");
    assert HasAnyOf(Lead(Brand[0].pattern), "ncp");
  }

  /** Text without `n`, `c` or `p` passes the brand rules untouched. */
  lemma BrandIdle(s: string)
    requires !HasAnyOf(s, "ncp")
    ensures ApplyAll(Brand, s) == s
  {
    BrandHaveChars();
    RulesIdleWithout(Brand, "ncp", s);
  }

  lemma HoverHaveChars()
    ensures LeadsHaveAnyOf(Hover, "h")
  {
  }

  /** Text without `h` passes the hover rules untouched. */
  lemma HoverIdle(s: string)
    requires !HasAnyOf(s, "h")
    ensures ApplyAll(Hover, s) == s
  {
    HoverHaveChars();
    RulesIdleWithout(Hover, "h", s);
  }

  lemma RestOfErrorsHaveChars()
    ensures LeadsHaveAnyOf(Errors[1..], "5h6")
  {
    assert LeadsHaveAnyOf(Errors[4..], "5h6");
    assert LeadsHaveAnyOf(Errors[3..], "5h6");
    assert LeadsHaveAnyOf(Errors[2..], "5h6");
  }

  /** Text without `text-red-`, `5`, `h` or `6` passes the error rules untouched. */
  lemma ErrorsIdle(s: string)
    requires !Contains(s, "text-red-")
    requires !HasAnyOf(s, "5h6")
    ensures ApplyAll(Errors, s) == s
  {
    RestOfErrorsHaveChars();
    RulesIdleWithout(Errors[1..], "5h6", s);
    NoLeadNoChange(Errors[0].pattern, s, Errors[0].limit);
    assert ApplyAll(Errors[..1], s) == s;
    assert Errors == Errors[..1] + Errors[1..];
    ApplyAllAppend(Errors[..1], Errors[1..], s);
  }

  lemma SuccessesHaveChars()
    ensures LeadsHaveAnyOf(Successes, "n")
  {
  }

  /** Text without `n` passes the success rules untouched. */
  lemma SuccessesIdle(s: string)
    requires !HasAnyOf(s, "n")
    ensures ApplyAll(Successes, s) == s
  {
    SuccessesHaveChars();
    RulesIdleWithout(Successes, "n", s);
  }

  lemma WarningsHaveChars()
    ensures LeadsHaveAnyOf(Warnings, "5")
  {
  }

  /** Text without `5` passes the warning rules untouched. */
  lemma WarningsIdle(s: string)
    requires !HasAnyOf(s, "5")
    ensures ApplyAll(Warnings, s) == s
  {
    WarningsHaveChars();
    RulesIdleWithout(Warnings, "5", s);
  }

  /** None of the rules after the first text-colour rule brings a `g` or a `5` back: each either needs one of them to match or inserts neither. */
  lemma RestOfTextColoursKeepOut(u: string)
    requires !HasAnyOf(u, "g5")
    ensures !HasAnyOf(ApplyAll(TextColours[1..], u), "g5")
  {
    NoneOf("text-text-inverse", "g5");
    assert AllKeepCharsOut(TextColours[5..], "g5");
    assert AllKeepCharsOut(TextColours[4..], "g5");
    assert AllKeepCharsOut(TextColours[3..], "g5");
    assert AllKeepCharsOut(TextColours[2..], "g5");
    assert AllKeepCharsOut(TextColours[1..], "g5");
    RulesKeepCharsOut(TextColours[1..], u, "g5");
  }

  lemma BordersKeepOut(u: string)
    requires !HasAnyOf(u, "g5")
    ensures !HasAnyOf(ApplyAll(Borders, u), "g5")
  {
    assert AllKeepCharsOut(Borders, "g5");
    RulesKeepCharsOut(Borders, u, "g5");
  }

  lemma BrandKeepsOut(u: string)
    requires !HasAnyOf(u, "g5")
    ensures !HasAnyOf(ApplyAll(Brand, u), "g5")
  {
    BrandKeepsCharsOut();
    RulesKeepCharsOut(Brand, u, "g5");
  }

  lemma HoverKeepsOut(u: string)
    requires !HasAnyOf(u, "g5")
    ensures !HasAnyOf(ApplyAll(Hover, u), "g5")
  {
    assert AllKeepCharsOut(Hover, "g5");
    RulesKeepCharsOut(Hover, u, "g5");
  }

  lemma ErrorsKeepOut(u: string)
    requires !HasAnyOf(u, "g5")
    ensures !HasAnyOf(ApplyAll(Errors, u), "g5")
  {
    assert AllKeepCharsOut(Errors, "g5");
    RulesKeepCharsOut(Errors, u, "g5");
  }

  lemma SuccessesKeepOut(u: string)
    requires !HasAnyOf(u, "g5")
    ensures !HasAnyOf(ApplyAll(Successes, u), "g5")
  {
    assert AllKeepCharsOut(Successes, "g5");
    RulesKeepCharsOut(Successes, u, "g5");
  }

  lemma WarningsKeepOut(u: string)
    requires !HasAnyOf(u, "g5")
    ensures !HasAnyOf(ApplyAll(Warnings, u), "g5")
  {
    assert AllKeepCharsOut(Warnings, "g5");
    RulesKeepCharsOut(Warnings, u, "g5");
  }

  lemma GluedLacksW51()
    ensures !HasAnyOf(Glued, "w51")
  {
    NoneOf(Glued, "w51");
  }

  lemma GluedLacks8765w()
    ensures !HasAnyOf(Glued, "8765w")
  {
    NoneOf(Glued, "8765w");
  }

  lemma GluedOnceLacks32()
    ensures !HasAnyOf(GluedOnce, "32")
  {
    NoneOf(GluedOnce, "32");
  }

  lemma GluedOnceLacksNcp()
    ensures !HasAnyOf(GluedOnce, "ncp")
  {
    NoneOf(GluedOnce, "ncp");
  }

  lemma GluedOnceLacksH()
    ensures !HasAnyOf(GluedOnce, "h")
  {
    NoneOf(GluedOnce, "h");
  }

  lemma GluedOnceLacks5h6()
    ensures !HasAnyOf(GluedOnce, "5h6")
  {
    NoneOf(GluedOnce, "5h6");
  }

  lemma GluedOnceLacksN()
    ensures !HasAnyOf(GluedOnce, "n")
  {
    NoneOf(GluedOnce, "n");
  }

  lemma GluedOnceLacks5()
    ensures !HasAnyOf(GluedOnce, "5")
  {
    NoneOf(GluedOnce, "5");
  }

  lemma GluedOnceLacksW51()
    ensures !HasAnyOf(GluedOnce, "w51")
  {
    NoneOf(GluedOnce, "w51");
  }

  /** The text that follows `border-gray-200` in the glued file. */
  const GluedTail: string := "ext-gray-900"

  lemma GluedTailFacts()
    ensures Glued == "border-gray-200" + GluedTail && 'b' !in GluedTail
  {
  }

  lemma GluedOnceSplit()
    ensures GluedOnce == "border-border-default" + GluedTail
  {
  }

  lemma GluedOnceRestOfBorders(t: string)
    requires t == GluedOnce
    ensures ApplyAll(Borders[1..], t) == t
  {
    GluedOnceLacks32();
    RestOfBordersIdle(t);
  }

  /** The first border rule is the only one that fires on the glued file. */
  lemma GluedBorders(s: string)
    requires s == Glued
    ensures ApplyAll(Borders, s) == GluedOnce
  {
    GluedTailFacts();
    LeadingGray200(s, GluedTail);
    GluedOnceSplit();
    var t := ApplyRule(Borders[0], s);
    GluedOnceRestOfBorders(t);
    assert Borders == Borders[..1] + Borders[1..];
    ApplyAllAppend(Borders[..1], Borders[1..], s);
    assert ApplyAll(Borders[..1], s) == t;
  }

  /** The first run rewrites only the border class. */
  lemma GluedFirstRun(s: string)
    requires s == Glued
    ensures ApplyAll(TokenRules, s) == GluedOnce
  {
    Sections(s);
    GluedLacksW51();
    BackgroundsIdle(s);
    GluedLacksGray900();
    GluedLacks8765w();
    TextColoursIdle(s);
    GluedBorders(s);
    var t := GluedOnce;
    GluedOnceLacksNcp();
    GluedOnceLacksH();
    GluedOnceLacks5h6();
    GluedOnceLacksN();
    GluedOnceLacks5();
    GluedOnceLacksRed();
    BrandIdle(t);
    HoverIdle(t);
    ErrorsIdle(t);
    SuccessesIdle(t);
    WarningsIdle(t);
  }

  /** The text that precedes `text-gray-900` in the once-rewritten file. */
  const GluedHead: string := "border-border-defaul"

  lemma GluedHeadFacts()
    ensures GluedOnce == GluedHead + "text-gray-900" && 't' !in GluedHead
  {
  }

  lemma GluedTwiceLacks()
    ensures !HasAnyOf(GluedHead + "text-text-primary", "g5")
  {
    NoneOf(GluedHead + "text-text-primary", "g5");
  }

  /** In the second run the first text-colour rule fires and removes the only
      `g` of the text. */
  lemma GluedOnceTextColours(s: string)
    requires s == GluedOnce
    ensures !HasAnyOf(ApplyAll(TextColours, s), "g5")
  {
    GluedHeadFacts();
    TrailingGray900(s, GluedHead);
    GluedTwiceLacks();
    var t := ApplyRule(TextColours[0], s);
    assert t == GluedHead + "text-text-primary";
    assert ApplyAll(TextColours[..1], s) == t;
    assert TextColours == TextColours[..1] + TextColours[1..];
    ApplyAllAppend(TextColours[..1], TextColours[1..], s);
    RestOfTextColoursKeepOut(t);
  }

  /** The second run leaves no `g`. */
  lemma GluedSecondRunLacksG(s: string)
    requires s == GluedOnce
    ensures !HasAnyOf(ApplyAll(TokenRules, s), "g5")
  {
    Sections(s);
    GluedOnceLacksW51();
    BackgroundsIdle(s);
    GluedOnceTextColours(s);
    var t := ApplyAll(TextColours, s);
    BordersKeepOut(t);
    var b := ApplyAll(Borders, t);
    BrandKeepsOut(b);
    var c := ApplyAll(Brand, b);
    HoverKeepsOut(c);
    var d := ApplyAll(Hover, c);
    ErrorsKeepOut(d);
    var e := ApplyAll(Errors, d);
    SuccessesKeepOut(e);
    WarningsKeepOut(ApplyAll(Successes, e));
  }

  /** Running the pass twice can give a different file than running it once. */
  lemma NotIdempotent()
    ensures exists s :: ApplyAll(TokenRules, ApplyAll(TokenRules, s)) != ApplyAll(TokenRules, s)
  {
    var s := Glued;
    GluedFirstRun(s);
    var once := ApplyAll(TokenRules, s);
    GluedSecondRunLacksG(once);
    assert GluedOnce[25] == 'g';
    HasAnyOfIntro(GluedOnce, "g5", 0);
    assert ApplyAll(TokenRules, once) != once;
  }
}
