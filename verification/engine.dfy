/** The substitution engine behind the two rewrite scripts.

    Each rule is one call to Python's `str.replace` or `re.sub`: scan for the
    leftmost match at or after the current position, rewrite it, resume after
    it, and stop when no match is left or when the optional `count` cap is used
    up. Matches never overlap and the text produced by one rewrite is never
    scanned again by the same rule.

    There is no general regular-expression engine here: every pattern shape
    the scripts use has its own matcher, and backtracking over greedy `[^>]*`
    and `.*` is written out as a search that tries the greatest position first.

    A match starting at `k` is described by a `Hit(a, b, end)`: the scanned text
    `s[k..end]` becomes `s[k..a] + Inserted(p) + s[b..end]`. */
module Rewrite {
  import opened Text

  // ---------------------------------------------------------------------------
  // Patterns and their matchers
  // ---------------------------------------------------------------------------

  /** The `count` argument of `re.sub`: `Unlimited` is Python's `count=0`. */
  datatype Limit = Unlimited | UpTo(n: nat)
  {
    function Dec(): Limit
    {
      match this
      case Unlimited => Unlimited
      case UpTo(n) => if n == 0 then UpTo(0) else UpTo(n - 1)
    }
  }

  datatype Pattern =
      /** `content.replace(target, repl)`. */
    | Literal(target: string, repl: string)
      /** `re.sub(r'word(["\s])', r'repl\1', ...)`, or `(["\s/])` when `slash`. */
    | Delimited(word: string, repl: string, slash: bool)
      /** `re.sub(r'prefix\d+', repl, ...)`. */
    | DigitRun(prefix: string, repl: string)
      /** `(className="[^"]*needle[^"]*)"` rewritten to `\1 suffix"`, optionally
          followed by the lookahead `(?! transition)`. */
    | ClassAttr(needle: string, suffix: string, lookahead: bool)
      /** `(<tag[^>]*className="(?!.*b1)(?!.*b2)...([^"]+))"` rewritten to `\1 suffix"`. */
    | TagClass(tag: string, blockers: seq<string>, suffix: string)
      /** `(<button[^>]*onClick=.*setActiveTab[^>]*className="[^"]*)"` rewritten to `\1 suffix"`. */
    | TabButton(suffix: string)

  datatype Hit = Hit(a: nat, b: nat, end: nat)

  const ClassOpen: string := "className=\""

  /** The text a rewrite puts in place of the deleted part of a match. */
  function Inserted(p: Pattern): string
  {
    match p
    case Literal(_, repl) => repl
    case Delimited(_, repl, _) => repl
    case DigitRun(_, repl) => repl
    case ClassAttr(_, suffix, _) => suffix
    case TagClass(_, _, suffix) => suffix
    case TabButton(suffix) => suffix
  }

  /** The literal text every match of `p` starts with. */
  function Lead(p: Pattern): string
  {
    match p
    case Literal(target, _) => target
    case Delimited(word, _, _) => word
    case DigitRun(prefix, _) => prefix
    case ClassAttr(_, _, _) => ClassOpen
    case TagClass(tag, _, _) => "<" + tag
    case TabButton(_) => "<button"
  }

  /** The patterns whose rewrite only inserts text before a closing quote. */
  predicate IsInsertion(p: Pattern)
  {
    p.ClassAttr? || p.TagClass? || p.TabButton?
  }

  /** `["\s]`, or `["\s/]` when `slash` holds. */
  predicate IsDelimiter(c: char, slash: bool)
  {
    c == '"' || IsPySpace(c) || (slash && c == '/')
  }

  /** The end of the run of decimal digits starting at `i` (greedy `\d+`). */
  function DigitsEnd(s: string, i: nat): (r: nat)
    requires i <= |s|
    ensures i <= r <= |s|
    ensures r < |s| ==> !IsPyDigit(s[r])
    ensures forall k :: i <= k < r ==> IsPyDigit(s[k])
    decreases |s| - i
  {
    if i < |s| && IsPyDigit(s[i]) then DigitsEnd(s, i + 1) else i
  }

  /** None of `blockers` occurs in `t`. */
  predicate NoneOccur(t: string, blockers: seq<string>)
    decreases |blockers|
  {
    blockers == [] || (!Occurs(t, blockers[0]) && NoneOccur(t, blockers[1..]))
  }

  /** Backtracking over `[^>]*className="(?!.*b)...([^"]*)"`: the greatest
      `z` in `lo..hi` where `className="` starts, no blocker occurs on the rest
      of that line, and a closing quote follows (after at least one character
      when `nonEmpty`, as `[^"]+` demands). Gives that closing quote. */
  function ClassQuote(s: string, lo: nat, z: nat, blockers: seq<string>, nonEmpty: bool): (r: Option<nat>)
    requires lo <= z <= |s|
    ensures r.Some? ==> lo + |ClassOpen| <= r.value < |s| && s[r.value] == '"'
    decreases z
  {
    if ClassOk(s, z, blockers, nonEmpty) then Some(IndexOfFrom(s, z + |ClassOpen|, '"'))
    else if z == lo then None
    else ClassQuote(s, lo, z - 1, blockers, nonEmpty)
  }

  /** Where `className="` at `z` satisfies the tag pattern: a closing quote
      follows (after a character when `nonEmpty`) and no blocker occurs on
      the rest of the line. */
  predicate ClassOk(s: string, z: nat, blockers: seq<string>, nonEmpty: bool)
    requires z <= |s|
  {
    StartsAt(s, z, ClassOpen) &&
    var v := z + |ClassOpen|;
    var q := IndexOfFrom(s, v, '"');
    q < |s| && (!nonEmpty || v < q) && NoneOccur(s[v..IndexOfFrom(s, v, '\n')], blockers)
  }

  /** No `className="` in `lo..z` suits the pattern. */
  predicate NoClassFits(s: string, lo: nat, z: nat, blockers: seq<string>, nonEmpty: bool)
    requires z <= |s|
  {
    forall y :: lo <= y <= z ==> !ClassOk(s, y, blockers, nonEmpty)
  }

  /** The search gives nothing exactly when no `className="` in `lo..z` suits. */
  lemma {:induction false} ClassQuoteMisses(s: string, lo: nat, z: nat, blockers: seq<string>, nonEmpty: bool)
    requires lo <= z <= |s|
    ensures ClassQuote(s, lo, z, blockers, nonEmpty).None? <==> NoClassFits(s, lo, z, blockers, nonEmpty)
    decreases z, 1
  {
    if !ClassOk(s, z, blockers, nonEmpty) && z > lo {
      ClassQuoteMissesStep(s, lo, z, blockers, nonEmpty);
    }
  }

  lemma {:induction false} ClassQuoteMissesStep(s: string, lo: nat, z: nat, blockers: seq<string>, nonEmpty: bool)
    requires lo < z <= |s| && !ClassOk(s, z, blockers, nonEmpty)
    ensures ClassQuote(s, lo, z, blockers, nonEmpty).None? <==> NoClassFits(s, lo, z, blockers, nonEmpty)
    decreases z, 0
  {
    ClassQuoteMisses(s, lo, z - 1, blockers, nonEmpty);
    NoClassFitsExtend(s, lo, z, blockers, nonEmpty);
  }

  lemma NoClassFitsExtend(s: string, lo: nat, z: nat, blockers: seq<string>, nonEmpty: bool)
    requires lo < z <= |s| && !ClassOk(s, z, blockers, nonEmpty)
    ensures NoClassFits(s, lo, z, blockers, nonEmpty) <==> NoClassFits(s, lo, z - 1, blockers, nonEmpty)
  {
  }

  /** The search finds something once any `className="` in `lo..z` suits. */
  lemma {:induction false} ClassQuoteSees(s: string, lo: nat, z: nat, y: nat, blockers: seq<string>, nonEmpty: bool)
    requires lo <= y <= z <= |s| && ClassOk(s, y, blockers, nonEmpty)
    ensures ClassQuote(s, lo, z, blockers, nonEmpty).Some?
    decreases z
  {
    if !ClassOk(s, z, blockers, nonEmpty) {
      ClassQuoteSees(s, lo, z - 1, y, blockers, nonEmpty);
    }
  }

  /** Backtracking over `setActiveTab[^>]*className="[^"]*"` for the greatest
      `y` in `lo..hi` (the `.*` before it cannot cross a newline). */
  function TabSetter(s: string, lo: nat, y: nat): (r: Option<nat>)
    requires lo <= y <= |s|
    ensures r.Some? ==> lo < r.value < |s| && s[r.value] == '"'
    decreases y
  {
    var here :=
      if StartsAt(s, y, "setActiveTab") then
        var w := y + 12;
        ClassQuote(s, w, IndexOfFrom(s, w, '>'), [], false)
      else None;
    if here.Some? then here
    else if y == lo then None
    else TabSetter(s, lo, y - 1)
  }

  /** Backtracking over `onClick=.*setActiveTab...` for the greatest `x` in `lo..hi`. */
  function TabClick(s: string, lo: nat, x: nat): (r: Option<nat>)
    requires lo <= x <= |s|
    ensures r.Some? ==> lo < r.value < |s| && s[r.value] == '"'
    decreases x
  {
    var here :=
      if StartsAt(s, x, "onClick=") then
        var w := x + 8;
        TabSetter(s, w, IndexOfFrom(s, w, '\n'))
      else None;
    if here.Some? then here
    else if x == lo then None
    else TabClick(s, lo, x - 1)
  }

  /** `target` at `k`; an empty target never matches here. */
  function LiteralAt(target: string, s: string, k: nat): (r: Option<Hit>)
    requires k <= |s|
    ensures r.Some? <==> target != [] && StartsAt(s, k, target)
    ensures r.Some? ==> r.value == Hit(k, k + |target|, k + |target|)
  {
    if target != [] && StartsAt(s, k, target)
    then Some(Hit(k, k + |target|, k + |target|)) else None
  }

  /** `word` at `k` followed by a delimiter, which the match keeps. */
  function DelimitedAt(word: string, slash: bool, s: string, k: nat): (r: Option<Hit>)
    requires k <= |s|
    ensures r.Some? <==> StartsAt(s, k, word) && k + |word| < |s| && IsDelimiter(s[k + |word|], slash)
    ensures r.Some? ==> r.value == Hit(k, k + |word|, k + |word| + 1)
  {
    var b := k + |word|;
    if StartsAt(s, k, word) && b < |s| && IsDelimiter(s[b], slash)
    then Some(Hit(k, b, b + 1)) else None
  }

  /** `prefix` at `k` followed by at least one digit; the match takes them all. */
  function DigitRunAt(prefix: string, s: string, k: nat): (r: Option<Hit>)
    requires k <= |s|
    ensures r.Some? <==> StartsAt(s, k, prefix) && k + |prefix| < DigitsEnd(s, k + |prefix|)
    ensures r.Some? ==> r.value == Hit(k, DigitsEnd(s, k + |prefix|), DigitsEnd(s, k + |prefix|))
  {
    if StartsAt(s, k, prefix) then
      var e := DigitsEnd(s, k + |prefix|);
      if k + |prefix| < e then Some(Hit(k, e, e)) else None
    else None
  }

  /** `className="` at `k` whose value holds `needle`; the match keeps the
      closing quote, and with `lookahead` it fails when ` transition`
      follows that quote. */
  function ClassAttrAt(needle: string, lookahead: bool, s: string, k: nat): (r: Option<Hit>)
    requires k <= |s|
    ensures r.Some? ==> StartsAt(s, k, ClassOpen)
    ensures r.Some? ==> var q := r.value.a;
      k + |ClassOpen| <= q < |s| && r.value == Hit(q, q, q + 1) &&
      q == IndexOfFrom(s, k + |ClassOpen|, '"')
  {
    if StartsAt(s, k, ClassOpen) then
      var v := k + |ClassOpen|;
      var q := IndexOfFrom(s, v, '"');
      if q < |s| && Occurs(s[v..q], needle) && (!lookahead || !StartsWith(s[q + 1..], " transition"))
      then Some(Hit(q, q, q + 1)) else None
    else None
  }

  /** `<tag` at `k` and a suitable `className="` before the tag's `>`. */
  function TagClassAt(tag: string, blockers: seq<string>, s: string, k: nat): (r: Option<Hit>)
    requires k <= |s|
    ensures r.Some? ==> StartsAt(s, k, "<" + tag)
    ensures r.Some? ==> var q := r.value.a;
      k + |tag| + 1 + |ClassOpen| <= q < |s| && s[q] == '"' && r.value == Hit(q, q, q + 1)
  {
    if StartsAt(s, k, "<" + tag) then
      var lo := k + |tag| + 1;
      match ClassQuote(s, lo, IndexOfFrom(s, lo, '>'), blockers, true)
      case None => None
      case Some(q) => Some(Hit(q, q, q + 1))
    else None
  }

  /** `<button` at `k` with a tab-switching `onClick` and a `className`. */
  function TabButtonAt(s: string, k: nat): (r: Option<Hit>)
    requires k <= |s|
    ensures r.Some? ==> StartsAt(s, k, "<button")
    ensures r.Some? ==> var q := r.value.a;
      k + 7 <= q < |s| && s[q] == '"' && r.value == Hit(q, q, q + 1)
  {
    if StartsAt(s, k, "<button") then
      var lo := k + 7;
      match TabClick(s, lo, IndexOfFrom(s, lo, '>'))
      case None => None
      case Some(q) => Some(Hit(q, q, q + 1))
    else None
  }

  /** The match of `p` that starts exactly at `k`, if there is one. */
  function MatchAt(p: Pattern, s: string, k: nat): (r: Option<Hit>)
    requires k <= |s|
    ensures r.Some? ==> k <= r.value.a <= r.value.b <= r.value.end <= |s| && k < r.value.end
    ensures r.Some? ==> StartsAt(s, k, Lead(p))
    ensures r.Some? && IsInsertion(p) ==>
      r.value.a == r.value.b && r.value.end == r.value.a + 1 && s[r.value.a] == '"'
  {
    match p
    case Literal(target, _) => LiteralAt(target, s, k)
    case Delimited(word, _, slash) => DelimitedAt(word, slash, s, k)
    case DigitRun(prefix, _) => DigitRunAt(prefix, s, k)
    case ClassAttr(needle, _, lookahead) => ClassAttrAt(needle, lookahead, s, k)
    case TagClass(tag, blockers, _) => TagClassAt(tag, blockers, s, k)
    case TabButton(_) => TabButtonAt(s, k)
  }

  /** A tag pattern matches at `k` when the tag opens there and some
      `className="` before the tag's `>` suits it. */
  lemma TagClassFound(tag: string, blockers: seq<string>, suffix: string, s: string, k: nat, y: nat)
    requires k <= |s| && StartsAt(s, k, "<" + tag)
    requires k + |tag| + 1 <= y <= IndexOfFrom(s, k + |tag| + 1, '>') && ClassOk(s, y, blockers, true)
    ensures MatchAt(TagClass(tag, blockers, suffix), s, k).Some?
  {
    var lo := k + |tag| + 1;
    TagClassDispatch(tag, blockers, suffix, s, k);
    ClassQuoteSees(s, lo, IndexOfFrom(s, lo, '>'), y, blockers, true);
  }

  /** An opened tag is skipped when no `className="` before its `>` suits
      the pattern (a tag that does not open at `k` never matches there, by
      the contract of `MatchAt`). */
  lemma TagClassSkipped(tag: string, blockers: seq<string>, suffix: string, s: string, k: nat)
    requires k <= |s| && StartsAt(s, k, "<" + tag)
    requires NoClassFits(s, k + |tag| + 1, IndexOfFrom(s, k + |tag| + 1, '>'), blockers, true)
    ensures MatchAt(TagClass(tag, blockers, suffix), s, k).None?
  {
    var lo := k + |tag| + 1;
    ClassQuoteSkips(s, lo, IndexOfFrom(s, lo, '>'), blockers);
    TagClassDispatch(tag, blockers, suffix, s, k);
  }

  lemma ClassQuoteSkips(s: string, lo: nat, hi: nat, blockers: seq<string>)
    requires lo <= hi <= |s|
    requires NoClassFits(s, lo, hi, blockers, true)
    ensures ClassQuote(s, lo, hi, blockers, true).None?
  {
    ClassQuoteMisses(s, lo, hi, blockers, true);
  }

  lemma TagClassDispatch(tag: string, blockers: seq<string>, suffix: string, s: string, k: nat)
    requires k <= |s|
    ensures var lo := k + |tag| + 1;
      MatchAt(TagClass(tag, blockers, suffix), s, k).Some? <==>
        StartsAt(s, k, "<" + tag) && ClassQuote(s, lo, IndexOfFrom(s, lo, '>'), blockers, true).Some?
  {
    assert MatchAt(TagClass(tag, blockers, suffix), s, k) == TagClassAt(tag, blockers, s, k);
  }

  /** The leftmost match at or after `i`. */
  function FindFrom(p: Pattern, s: string, i: nat): (r: Option<nat>)
    requires i <= |s|
    ensures r.Some? ==> i <= r.value <= |s| && MatchAt(p, s, r.value).Some?
    ensures forall k :: i <= k <= |s| && (r.None? || k < r.value) ==> MatchAt(p, s, k).None?
    decreases |s| - i
  {
    if MatchAt(p, s, i).Some? then Some(i)
    else if i == |s| then None
    else FindFrom(p, s, i + 1)
  }

  /** The search skips text that lacks the first character of the pattern's
      leading word. */
  lemma {:induction false} FindSkips(p: Pattern, s: string, i: nat, k: nat)
    requires i <= k <= |s| && Lead(p) != [] && Lead(p)[0] !in s[i..k]
    ensures FindFrom(p, s, i) == FindFrom(p, s, k)
    decreases k - i
  {
    if i < k {
      assert s[i] == s[i..k][0];
      FindSkipsOne(p, s, i);
      assert s[i + 1..k] == s[i..k][1..];
      FindSkips(p, s, i + 1, k);
    }
  }

  /** One character that cannot start the leading word is passed over. */
  lemma FindSkipsOne(p: Pattern, s: string, i: nat)
    requires i < |s| && Lead(p) != [] && s[i] != Lead(p)[0]
    ensures FindFrom(p, s, i) == FindFrom(p, s, i + 1)
  {
    assert !StartsAt(s, i, Lead(p)) by {
      if i + |Lead(p)| <= |s| {
        assert s[i..i + |Lead(p)|][0] == s[i];
      }
    }
  }

  // ---------------------------------------------------------------------------
  // One substitution pass
  // ---------------------------------------------------------------------------

  /** The matches one pass rewrites, in scan order. */
  function HitsFrom(p: Pattern, s: string, i: nat, lim: Limit): seq<Hit>
    requires i <= |s|
    decreases |s| - i
  {
    if lim == UpTo(0) then []
    else match FindFrom(p, s, i)
      case None => []
      case Some(k) =>
        var h := MatchAt(p, s, k).value;
        [h] + HitsFrom(p, s, h.end, lim.Dec())
  }

  /** The rewritten text from position `i` on. */
  function SubFrom(p: Pattern, s: string, i: nat, lim: Limit): string
    requires i <= |s|
    decreases |s| - i
  {
    if lim == UpTo(0) then s[i..]
    else match FindFrom(p, s, i)
      case None => s[i..]
      case Some(k) =>
        var h := MatchAt(p, s, k).value;
        s[i..h.a] + Inserted(p) + s[h.b..h.end] + SubFrom(p, s, h.end, lim.Dec())
  }

  /** `re.sub(p, repl, s, count)` or `s.replace(target, repl)`. */
  function Sub(p: Pattern, s: string, lim: Limit): string
  {
    SubFrom(p, s, 0, lim)
  }

  function Hits(p: Pattern, s: string, lim: Limit): seq<Hit>
  {
    HitsFrom(p, s, 0, lim)
  }

  // ---------------------------------------------------------------------------
  // An independent description of the output: splicing a list of hits
  // ---------------------------------------------------------------------------

  /** `hs` are ordered, non-overlapping hits inside `s[i..]`. */
  predicate Chain(s: string, i: nat, hs: seq<Hit>)
    decreases |hs|
  {
    i <= |s| &&
    (hs == [] ||
     (i <= hs[0].a <= hs[0].b <= hs[0].end <= |s| && i < hs[0].end && Chain(s, hs[0].end, hs[1..])))
  }

  /** `s[i..]` with every hit of `hs` rewritten and everything between kept. */
  function Splice(s: string, i: nat, hs: seq<Hit>, ins: string): string
    requires Chain(s, i, hs)
    decreases |hs|
  {
    if hs == [] then s[i..]
    else s[i..hs[0].a] + ins + s[hs[0].b..hs[0].end] + Splice(s, hs[0].end, hs[1..], ins)
  }

  /** Every position of `qs` lies in `lo..hi`. */
  predicate Within(qs: seq<nat>, lo: nat, hi: nat)
  {
    forall j :: 0 <= j < |qs| ==> lo <= qs[j] <= hi
  }

  predicate Ascending(qs: seq<nat>)
  {
    forall j, l :: 0 <= j < l < |qs| ==> qs[j] < qs[l]
  }

  /** Every position of `qs` is at or after `i` and holds a double quote of `s`. */
  predicate QuotesFrom(s: string, i: nat, qs: seq<nat>)
  {
    forall j :: 0 <= j < |qs| ==> i <= qs[j] < |s| && s[qs[j]] == '"'
  }

  /** `s[i..]` with `ins` inserted before each position of `qs`, which ascend. */
  function InsertBefore(s: string, i: nat, qs: seq<nat>, ins: string): string
    requires i <= |s| && Within(qs, i, |s|) && Ascending(qs)
    decreases |qs|
  {
    if qs == [] then s[i..]
    else s[i..qs[0]] + ins + InsertBefore(s, qs[0], qs[1..], ins)
  }

  function Positions(hs: seq<Hit>): (qs: seq<nat>)
    ensures |qs| == |hs| && forall j :: 0 <= j < |hs| ==> qs[j] == hs[j].a
  {
    if hs == [] then [] else [hs[0].a] + Positions(hs[1..])
  }

  /** The hits of a pass are ordered and disjoint, each one the leftmost match
      after the previous one, and a cap of `n` allows at most `n` of them. */
  lemma {:induction false} HitsChain(p: Pattern, s: string, i: nat, lim: Limit)
    requires i <= |s|
    ensures Chain(s, i, HitsFrom(p, s, i, lim))
    ensures lim.UpTo? ==> |HitsFrom(p, s, i, lim)| <= lim.n
    ensures forall j :: 0 <= j < |HitsFrom(p, s, i, lim)| ==> HitsFrom(p, s, i, lim)[j].end <= |s|
    decreases |s| - i, 1
  {
    if lim != UpTo(0) && FindFrom(p, s, i).Some? {
      HitsChainStep(p, s, i, lim);
    } else {
      SubDone(p, s, i, lim);
    }
  }

  lemma {:induction false} HitsChainStep(p: Pattern, s: string, i: nat, lim: Limit)
    requires i <= |s| && lim != UpTo(0) && FindFrom(p, s, i).Some?
    ensures Chain(s, i, HitsFrom(p, s, i, lim))
    ensures lim.UpTo? ==> |HitsFrom(p, s, i, lim)| <= lim.n
    ensures forall j :: 0 <= j < |HitsFrom(p, s, i, lim)| ==> HitsFrom(p, s, i, lim)[j].end <= |s|
    decreases |s| - i, 0
  {
    var h := MatchAt(p, s, FindFrom(p, s, i).value).value;
    HitsStep(p, s, i, lim);
    HitsChain(p, s, h.end, lim.Dec());
    ChainCons(s, i, h, HitsFrom(p, s, h.end, lim.Dec()));
  }

  lemma ChainCons(s: string, i: nat, h: Hit, rest: seq<Hit>)
    requires i <= h.a <= h.b <= h.end <= |s| && i < h.end && Chain(s, h.end, rest)
    requires forall j :: 0 <= j < |rest| ==> rest[j].end <= |s|
    ensures Chain(s, i, [h] + rest)
    ensures forall j :: 0 <= j < |[h] + rest| ==> ([h] + rest)[j].end <= |s|
  {
    assert ([h] + rest)[1..] == rest;
  }

  /** The rewritten text is the input with exactly the hits spliced in. */
  lemma {:induction false} SubIsSplice(p: Pattern, s: string, i: nat, lim: Limit)
    requires i <= |s|
    ensures Chain(s, i, HitsFrom(p, s, i, lim))
    ensures SubFrom(p, s, i, lim) == Splice(s, i, HitsFrom(p, s, i, lim), Inserted(p))
    decreases |s| - i
  {
    HitsChain(p, s, i, lim);
    if lim != UpTo(0) && FindFrom(p, s, i).Some? {
      var h := MatchAt(p, s, FindFrom(p, s, i).value).value;
      SubIsSplice(p, s, h.end, lim.Dec());
      assert HitsFrom(p, s, i, lim)[1..] == HitsFrom(p, s, h.end, lim.Dec());
    }
  }

  /** One hit of a pass that may still rewrite and finds a match. */
  lemma HitsStep(p: Pattern, s: string, i: nat, lim: Limit)
    requires i <= |s| && lim != UpTo(0) && FindFrom(p, s, i).Some?
    ensures var h := MatchAt(p, s, FindFrom(p, s, i).value).value;
      HitsFrom(p, s, i, lim) == [h] + HitsFrom(p, s, h.end, lim.Dec())
  {
  }

  /** One rewrite of a pass that may still rewrite and finds a match. */
  lemma SubStep(p: Pattern, s: string, i: nat, lim: Limit)
    requires i <= |s| && lim != UpTo(0) && FindFrom(p, s, i).Some?
    ensures var h := MatchAt(p, s, FindFrom(p, s, i).value).value;
      SubFrom(p, s, i, lim) == s[i..h.a] + Inserted(p) + s[h.b..h.end] + SubFrom(p, s, h.end, lim.Dec())
  {
  }

  /** A pass that may not rewrite any more, or finds no match, keeps the rest. */
  lemma SubDone(p: Pattern, s: string, i: nat, lim: Limit)
    requires i <= |s| && (lim == UpTo(0) || FindFrom(p, s, i).None?)
    ensures SubFrom(p, s, i, lim) == s[i..]
    ensures HitsFrom(p, s, i, lim) == []
  {
  }

  lemma TakeCons(h: Hit, rest: seq<Hit>, capped: seq<Hit>, n: nat)
    requires n > 0 && capped == rest[..if n - 1 < |rest| then n - 1 else |rest|]
    ensures [h] + capped == ([h] + rest)[..if n < |[h] + rest| then n else |[h] + rest|]
  {
  }

  /** A pass with cap `n` rewrites exactly the first `n` matches an uncapped
      pass would rewrite, in the same scan order. */
  lemma {:induction false} CapTakesFirst(p: Pattern, s: string, i: nat, n: nat)
    requires i <= |s|
    ensures var all := HitsFrom(p, s, i, Unlimited);
      HitsFrom(p, s, i, UpTo(n)) == all[..if n < |all| then n else |all|]
    decreases |s| - i, 1
  {
    if n > 0 && FindFrom(p, s, i).Some? {
      CapTakesFirstStep(p, s, i, n);
    } else if n == 0 {
      assert HitsFrom(p, s, i, UpTo(n)) == [];
    } else {
      assert HitsFrom(p, s, i, UpTo(n)) == [] == HitsFrom(p, s, i, Unlimited);
    }
  }

  lemma {:induction false} CapTakesFirstStep(p: Pattern, s: string, i: nat, n: nat)
    requires i <= |s| && n > 0 && FindFrom(p, s, i).Some?
    ensures var all := HitsFrom(p, s, i, Unlimited);
      HitsFrom(p, s, i, UpTo(n)) == all[..if n < |all| then n else |all|]
    decreases |s| - i, 0
  {
    var h := MatchAt(p, s, FindFrom(p, s, i).value).value;
    HitsStep(p, s, i, Unlimited);
    HitsStep(p, s, i, UpTo(n));
    assert UpTo(n).Dec() == UpTo(n - 1);
    CapTakesFirst(p, s, h.end, n - 1);
    TakeCons(h, HitsFrom(p, s, h.end, Unlimited), HitsFrom(p, s, h.end, UpTo(n - 1)), n);
  }

  /** With no match at all, a pass returns its input. */
  lemma {:induction false} NoLeadNoChange(p: Pattern, s: string, lim: Limit)
    requires !Contains(s, Lead(p))
    ensures Sub(p, s, lim) == s
    ensures Hits(p, s, lim) == []
  {
  }

  /** When a pass rewrote something, its inserted text is in the result. */
  lemma RewriteLeavesInserted(p: Pattern, s: string, lim: Limit)
    requires Hits(p, s, lim) != []
    ensures Contains(Sub(p, s, lim), Inserted(p))
  {
    assert lim != UpTo(0) && FindFrom(p, s, 0).Some?;
    var h := MatchAt(p, s, FindFrom(p, s, 0).value).value;
    SubStep(p, s, 0, lim);
    ContainsMiddle(s[0..h.a], Inserted(p), s[h.b..h.end], SubFrom(p, s, h.end, lim.Dec()));
  }

  lemma ContainsMiddle(x: string, m: string, y: string, z: string)
    ensures Contains(x + m + y + z, m)
  {
    assert (x + m + y + z)[|x|..|x| + |m|] == m;
    assert StartsAt(x + m + y + z, |x|, m);
  }

  /** Every hit deletes nothing and keeps exactly the closing quote it stands before. */
  predicate QuoteHits(s: string, hs: seq<Hit>)
  {
    forall j :: 0 <= j < |hs| ==>
      hs[j].b == hs[j].a && hs[j].end == hs[j].a + 1 && hs[j].a < |s| && s[hs[j].a] == '"'
  }

  lemma {:induction false} HitsAreQuotes(p: Pattern, s: string, i: nat, lim: Limit)
    requires i <= |s| && IsInsertion(p)
    ensures QuoteHits(s, HitsFrom(p, s, i, lim))
    decreases |s| - i, 1
  {
    if lim != UpTo(0) && FindFrom(p, s, i).Some? {
      HitsAreQuotesStep(p, s, i, lim);
    } else {
      SubDone(p, s, i, lim);
    }
  }

  lemma {:induction false} HitsAreQuotesStep(p: Pattern, s: string, i: nat, lim: Limit)
    requires i <= |s| && IsInsertion(p) && lim != UpTo(0) && FindFrom(p, s, i).Some?
    ensures QuoteHits(s, HitsFrom(p, s, i, lim))
    decreases |s| - i, 0
  {
    var h := MatchAt(p, s, FindFrom(p, s, i).value).value;
    HitsStep(p, s, i, lim);
    HitsAreQuotes(p, s, h.end, lim.Dec());
    QuoteHitsCons(s, h, HitsFrom(p, s, h.end, lim.Dec()));
  }

  lemma QuoteHitsCons(s: string, h: Hit, rest: seq<Hit>)
    requires h.b == h.a && h.end == h.a + 1 && h.a < |s| && s[h.a] == '"'
    requires QuoteHits(s, rest)
    ensures QuoteHits(s, [h] + rest)
  {
    assert forall j :: 1 <= j < |[h] + rest| ==> ([h] + rest)[j] == rest[j - 1];
  }

  lemma InsertBeforeShift(s: string, i: nat, qs: seq<nat>, ins: string)
    requires i < |s| && Within(qs, i + 1, |s|) && Ascending(qs)
    ensures Within(qs, i, |s|)
    ensures InsertBefore(s, i, qs, ins) == s[i..i + 1] + InsertBefore(s, i + 1, qs, ins)
  {
    if qs != [] {
      assert s[i..qs[0]] == s[i..i + 1] + s[i + 1..qs[0]];
    }
  }

  lemma {:induction false} SpliceQuotes(s: string, i: nat, hs: seq<Hit>, ins: string)
    requires Chain(s, i, hs) && QuoteHits(s, hs)
    ensures QuotesFrom(s, i, Positions(hs)) && Ascending(Positions(hs)) && Within(Positions(hs), i, |s|)
    ensures Splice(s, i, hs, ins) == InsertBefore(s, i, Positions(hs), ins)
    decreases |hs|, 1
  {
    if hs != [] {
      SpliceQuotesStep(s, i, hs, ins);
    }
  }

  lemma {:induction false} SpliceQuotesStep(s: string, i: nat, hs: seq<Hit>, ins: string)
    requires hs != [] && Chain(s, i, hs) && QuoteHits(s, hs)
    ensures QuotesFrom(s, i, Positions(hs)) && Ascending(Positions(hs)) && Within(Positions(hs), i, |s|)
    ensures Splice(s, i, hs, ins) == InsertBefore(s, i, Positions(hs), ins)
    decreases |hs|, 0
  {
    var h := hs[0];
    QuoteHitsTail(s, hs);
    SpliceQuotes(s, h.end, hs[1..], ins);
    var rest := Positions(hs[1..]);
    assert Positions(hs) == [h.a] + rest;
    QuotesCons(s, i, h.a, rest);
    InsertBeforeShift(s, h.a, rest, ins);
    InsertBeforeCons(s, i, h.a, rest, ins);
    SpliceCons(s, i, hs, ins);
  }

  lemma QuoteHitsTail(s: string, hs: seq<Hit>)
    requires hs != [] && QuoteHits(s, hs)
    ensures QuoteHits(s, hs[1..])
    ensures hs[0].b == hs[0].a && hs[0].end == hs[0].a + 1 && hs[0].a < |s| && s[hs[0].a] == '"'
  {
    assert forall j :: 0 <= j < |hs[1..]| ==> hs[1..][j] == hs[j + 1];
  }

  lemma QuotesCons(s: string, i: nat, q: nat, rest: seq<nat>)
    requires i <= q < |s| && s[q] == '"'
    requires QuotesFrom(s, q + 1, rest) && Ascending(rest) && Within(rest, q + 1, |s|)
    ensures QuotesFrom(s, i, [q] + rest) && Ascending([q] + rest) && Within([q] + rest, i, |s|)
  {
  }

  lemma InsertBeforeCons(s: string, i: nat, q: nat, rest: seq<nat>, ins: string)
    requires i <= q <= |s| && Within([q] + rest, i, |s|) && Ascending([q] + rest)
    ensures Within(rest, q, |s|) && Ascending(rest)
    ensures InsertBefore(s, i, [q] + rest, ins) == s[i..q] + ins + InsertBefore(s, q, rest, ins)
  {
    assert ([q] + rest)[1..] == rest;
    forall j | 0 <= j < |rest|
      ensures q < rest[j] <= |s|
    {
      assert ([q] + rest)[0] < ([q] + rest)[j + 1];
    }
  }

  lemma SpliceCons(s: string, i: nat, hs: seq<Hit>, ins: string)
    requires hs != [] && Chain(s, i, hs)
    requires hs[0].b == hs[0].a && hs[0].end == hs[0].a + 1
    ensures Chain(s, hs[0].end, hs[1..])
    ensures Splice(s, i, hs, ins) == s[i..hs[0].a] + ins + (s[hs[0].a..hs[0].a + 1] + Splice(s, hs[0].end, hs[1..], ins))
  {
  }

  /** A pass of an insertion pattern keeps every character of the input and
      only adds its suffix just before closing quotes of the input. */
  lemma InsertionOnly(p: Pattern, s: string, lim: Limit)
    requires IsInsertion(p)
    ensures var qs := Positions(Hits(p, s, lim));
      QuotesFrom(s, 0, qs) && Ascending(qs) && Within(qs, 0, |s|) &&
      Sub(p, s, lim) == InsertBefore(s, 0, qs, Inserted(p))
  {
    SubIsSplice(p, s, 0, lim);
    HitsAreQuotes(p, s, 0, lim);
    SpliceQuotes(s, 0, Hits(p, s, lim), Inserted(p));
  }

  /** A `className` attribute on its own: the pattern matches it exactly when
      its value holds the needle, and then appends the suffix inside the
      quotes. The lookahead never blocks, since nothing follows the quote. */
  lemma LoneAttribute(needle: string, suffix: string, lookahead: bool, v: string, lim: Limit)
    requires '"' !in v && lim != UpTo(0)
    ensures Sub(ClassAttr(needle, suffix, lookahead), ClassOpen + v + "\"", lim) ==
      if Contains(v, needle) then ClassOpen + v + suffix + "\"" else ClassOpen + v + "\""
  {
    LoneShape(v);
    LoneNoLater(needle, suffix, lookahead, v);
    if Contains(v, needle) {
      LoneHit(needle, suffix, lookahead, v, lim);
    } else {
      LoneMiss(needle, suffix, lookahead, v, lim);
    }
  }

  /** Where the quotes of a lone attribute are. */
  lemma LoneShape(v: string)
    requires '"' !in v
    ensures var s := ClassOpen + v + "\"";
      var q := |ClassOpen| + |v|;
      && StartsAt(s, 0, ClassOpen) && s[|ClassOpen|..q] == v && s[q] == '"' && s[q + 1..] == []
      && IndexOfFrom(s, |ClassOpen|, '"') == q
      && forall k :: 0 <= k < |s| && s[k] == '"' ==> k == |ClassOpen| - 1 || k == q
  {
    var s := ClassOpen + v + "\"";
    var q := |ClassOpen| + |v|;
    StartsAtFront(ClassOpen, v + "\"");
    assert s == ClassOpen + (v + "\"");
    assert forall k :: |ClassOpen| <= k < q ==> s[k] == v[k - |ClassOpen|];
    assert forall k :: 0 <= k < |ClassOpen| ==> s[k] == ClassOpen[k];
  }

  /** Only the attribute's own start can match. */
  lemma LoneNoLater(needle: string, suffix: string, lookahead: bool, v: string)
    requires '"' !in v
    ensures FindFrom(ClassAttr(needle, suffix, lookahead), ClassOpen + v + "\"", 1).None?
  {
    var p := ClassAttr(needle, suffix, lookahead);
    var s := ClassOpen + v + "\"";
    LoneShape(v);
    forall k | 1 <= k <= |s|
      ensures MatchAt(p, s, k).None?
    {
      if StartsAt(s, k, ClassOpen) {
        ClassOpenEndsInQuote(s, k);
      }
    }
  }

  lemma ClassOpenEndsInQuote(s: string, k: nat)
    requires StartsAt(s, k, ClassOpen)
    ensures s[k + |ClassOpen| - 1] == '"'
  {
    assert s[k..k + |ClassOpen|][|ClassOpen| - 1] == '"';
  }

  lemma LoneHit(needle: string, suffix: string, lookahead: bool, v: string, lim: Limit)
    requires '"' !in v && lim != UpTo(0) && Contains(v, needle)
    requires FindFrom(ClassAttr(needle, suffix, lookahead), ClassOpen + v + "\"", 1).None?
    ensures Sub(ClassAttr(needle, suffix, lookahead), ClassOpen + v + "\"", lim) == ClassOpen + v + suffix + "\""
  {
    var p := ClassAttr(needle, suffix, lookahead);
    var s := ClassOpen + v + "\"";
    var q := |ClassOpen| + |v|;
    LoneShape(v);
    assert MatchAt(p, s, 0) == Some(Hit(q, q, q + 1));
    SubStep(p, s, 0, lim);
    SubDone(p, s, q + 1, lim.Dec());
    assert s[0..q] == ClassOpen + v && s[q..q + 1] == "\"";
  }

  lemma LoneMiss(needle: string, suffix: string, lookahead: bool, v: string, lim: Limit)
    requires '"' !in v && !Contains(v, needle)
    requires FindFrom(ClassAttr(needle, suffix, lookahead), ClassOpen + v + "\"", 1).None?
    ensures Sub(ClassAttr(needle, suffix, lookahead), ClassOpen + v + "\"", lim) == ClassOpen + v + "\""
  {
    var p := ClassAttr(needle, suffix, lookahead);
    var s := ClassOpen + v + "\"";
    LoneShape(v);
    assert MatchAt(p, s, 0).None?;
    SubDone(p, s, 0, lim);
  }

  /** A lone attribute holding the needle gets the suffix again on every
      pass, even when its value already ends with that suffix. */
  lemma AttributeStacks(needle: string, suffix: string, lookahead: bool, v: string, lim: Limit)
    requires '"' !in v && '"' !in suffix && Contains(v, needle) && lim != UpTo(0)
    ensures var p := ClassAttr(needle, suffix, lookahead);
      Sub(p, Sub(p, ClassOpen + v + "\"", lim), lim) == ClassOpen + v + suffix + suffix + "\""
  {
    var a := ClassOpen + v + suffix + "\"";
    var b := ClassOpen + (v + suffix) + "\"";
    QuotedAssoc(v, suffix, [], a, b);
    QuotedAssoc(v, suffix, suffix, ClassOpen + (v + suffix) + suffix + "\"", ClassOpen + v + suffix + suffix + "\"");
    AttributeHit(needle, suffix, lookahead, v, lim, ClassOpen + v + "\"");
    ContainsInConcat(v, suffix, needle);
    AttributeHit(needle, suffix, lookahead, v + suffix, lim, b);
  }

  lemma QuotedAssoc(v: string, x: string, y: string, a: string, b: string)
    requires a == ClassOpen + (v + x) + y + "\"" && b == ClassOpen + v + x + y + "\""
    ensures a == b
  {
  }

  lemma AttributeHit(needle: string, suffix: string, lookahead: bool, v: string, lim: Limit, s: string)
    requires '"' !in v && Contains(v, needle) && lim != UpTo(0) && s == ClassOpen + v + "\""
    ensures Sub(ClassAttr(needle, suffix, lookahead), s, lim) == ClassOpen + v + suffix + "\""
  {
    LoneAttribute(needle, suffix, lookahead, v, lim);
  }

  // ---------------------------------------------------------------------------
  // Which words a pass can create or remove
  // ---------------------------------------------------------------------------

  /** Placed so that its index 0 lies at index `d` of `m`, `w` agrees with
      `m` wherever the two overlap. */
  ghost predicate AgreesAt(w: string, m: string, d: int)
  {
    forall t :: 0 <= t < |w| && 0 <= t + d < |m| ==> w[t] == m[t + d]
  }

  /** No occurrence of `w` can overlap an occurrence of `m` in any text. */
  ghost predicate NeverOverlaps(w: string, m: string)
  {
    forall d :: -|w| < d < |m| ==> !AgreesAt(w, m, d)
  }

  /** Every index of `m` from `i` on holding the first character of `w` is
      listed in `ps`, in order, each with an index of `w` at which `w` placed
      there disagrees with `m` (or `w` placed there ends inside `m`). */
  predicate Placements(m: string, w: string, i: nat, ps: seq<(nat, nat)>)
    requires w != [] && i <= |m|
    decreases |ps|
  {
    if ps == [] then w[0] !in m[i..]
    else
      var p := ps[0].0;
      var o := ps[0].1;
      && i <= p < |m| && w[0] !in m[i..p]
      && (p + |w| <= |m| || (o < |w| && p + o < |m| && w[o] != m[p + o]))
      && Placements(m, w, p + 1, ps[1..])
  }

  lemma {:induction false} PlacementsClash(m: string, w: string, i: nat, ps: seq<(nat, nat)>)
    requires w != [] && i <= |m| && Placements(m, w, i, ps)
    ensures forall d :: i <= d < |m| && d + |w| > |m| ==> !AgreesAt(w, m, d)
    decreases |ps|
  {
    if ps != [] {
      PlacementsClash(m, w, ps[0].0 + 1, ps[1..]);
    }
    forall d | i <= d < |m| && d + |w| > |m|
      ensures !AgreesAt(w, m, d)
    {
      if ps == [] {
        assert m[d] == m[i..][d - i];
        assert w[0] != m[d];
      } else {
        var p := ps[0].0;
        var o := ps[0].1;
        if d < p {
          assert m[d] == m[i..p][d - i];
          assert w[0] != m[d];
        } else if d == p {
          assert w[o] != m[o + d];
        }
      }
    }
  }

  /** A sufficient condition for `NeverOverlaps` that only asks which
      characters occur where: the last character of `w` is not in `m` (so
      `w` cannot end inside `m`), `m` holds a character `c` that `w` lacks
      (so `m` cannot lie inside `w`), and every placement of `w` starting
      inside `m` and running past its end is excluded by `ps`. */
  lemma NoOverlapBy(w: string, m: string, c: char, ps: seq<(nat, nat)>)
    requires w != [] && w[|w| - 1] !in m
    requires c in m && c !in w
    requires |m| > 0 && Placements(m, w, 1, ps)
    ensures NeverOverlaps(w, m)
  {
    PlacementsClash(m, w, 1, ps);
    forall d | -|w| < d < |m|
      ensures !AgreesAt(w, m, d)
    {
      if d + |w| <= |m| {
        assert w[|w| - 1] != m[|w| - 1 + d];
      } else if d <= 0 {
        var i :| 0 <= i < |m| && m[i] == c;
        assert w[i - d] != m[i];
      }
    }
  }

  /** A second sufficient condition for `NeverOverlaps`: `m` starts with a
      character `w` lacks (so `w` cannot cover the start of `m`), `w[t]` is
      not in `m` (so `w` cannot start early in `m`), and every placement of
      `w` starting in the last `t` characters of `m` is excluded by `ps`. */
  lemma NoOverlapAround(w: string, m: string, t: nat, ps: seq<(nat, nat)>)
    requires m != [] && m[0] !in w
    requires t < |w| && t <= |m| && w[t] !in m
    requires Placements(m, w, |m| - t, ps)
    ensures NeverOverlaps(w, m)
  {
    PlacementsClash(m, w, |m| - t, ps);
    forall d | -|w| < d < |m|
      ensures !AgreesAt(w, m, d)
    {
      if d <= 0 {
        assert w[-d] != m[0];
      } else if d < |m| - t {
        assert w[t] != m[t + d];
      }
    }
  }

  /** A single character never overlaps a text that does not hold it. */
  lemma NoOverlapChar(c: char, m: string)
    requires c !in m
    ensures NeverOverlaps([c], m)
  {
    forall d | -1 < d < |m|
      ensures !AgreesAt([c], m, d)
    {
      assert [c][0] != m[d];
    }
  }

  /** An occurrence of `w` in `x + m + y` lies wholly inside `x` or wholly
      inside `y` when `w` can never overlap `m`. */
  lemma Straddle(x: string, m: string, y: string, w: string, j: int)
    requires NeverOverlaps(w, m) && m != []
    requires StartsAt(x + m + y, j, w)
    ensures StartsAt(x, j, w) || StartsAt(y, j - |x| - |m|, w)
  {
    var z := x + m + y;
    if j + |w| <= |x| {
      assert z[j..j + |w|] == x[j..j + |w|];
    } else if j >= |x| + |m| {
      assert z[j..j + |w|] == y[j - |x| - |m|..j - |x| - |m| + |w|];
    } else {
      var d := j - |x|;
      forall t | 0 <= t < |w| && 0 <= t + d < |m|
        ensures w[t] == m[t + d]
      {
        assert z[j..j + |w|][t] == w[t];
      }
      assert AgreesAt(w, m, d);
      assert false;
    }
  }

  lemma SliceStartsAt(s: string, lo: nat, hi: nat, t: int, w: string)
    requires lo <= hi <= |s| && StartsAt(s[lo..hi], t, w)
    ensures StartsAt(s, lo + t, w)
  {
    forall k | 0 <= k < |w|
      ensures s[lo + t + k] == w[k]
    {
      assert s[lo..hi][t..t + |w|][k] == w[k];
    }
    assert s[lo + t..lo + t + |w|] == w;
  }

  lemma SliceContains(s: string, lo: nat, hi: nat, w: string)
    requires lo <= hi <= |s| && Contains(s[lo..hi], w)
    ensures Contains(s, w)
  {
    var t :| 0 <= t <= |s[lo..hi]| && StartsAt(s[lo..hi], t, w);
    SliceStartsAt(s, lo, hi, t, w);
  }

  /** `w` cannot appear around an inserted text it never overlaps. */
  lemma AbsentAround(x: string, m: string, y: string, w: string)
    requires NeverOverlaps(w, m) && m != []
    requires !Contains(x, w) && !Contains(y, w)
    ensures !Contains(x + m + y, w)
  {
    if Contains(x + m + y, w) {
      var t :| 0 <= t <= |x + m + y| && StartsAt(x + m + y, t, w);
      Straddle(x, m, y, w, t);
      assert StartsAt(x, t, w) ==> Contains(x, w);
    }
  }

  /** The generalised statement behind `PassKeepsAbsent`: a kept slice of the
      input followed by the rest of a splice has no occurrence of `w`. */
  lemma {:induction false} SpliceKeepsAbsent(s: string, j: nat, i: nat, hs: seq<Hit>, ins: string, w: string)
    requires j <= i && Chain(s, i, hs)
    requires !Contains(s, w) && NeverOverlaps(w, ins) && ins != []
    ensures !Contains(s[j..i] + Splice(s, i, hs, ins), w)
    decreases |hs|, 1
  {
    if hs == [] {
      assert s[j..i] + Splice(s, i, hs, ins) == s[j..|s|];
      SliceAbsent(s, j, |s|, w);
    } else {
      SpliceKeepsAbsentStep(s, j, i, hs, ins, w);
    }
  }

  lemma {:induction false} SpliceKeepsAbsentStep(s: string, j: nat, i: nat, hs: seq<Hit>, ins: string, w: string)
    requires j <= i && Chain(s, i, hs) && hs != []
    requires !Contains(s, w) && NeverOverlaps(w, ins) && ins != []
    ensures !Contains(s[j..i] + Splice(s, i, hs, ins), w)
    decreases |hs|, 0
  {
    var h := hs[0];
    var x := s[j..h.a];
    var y := s[h.b..h.end] + Splice(s, h.end, hs[1..], ins);
    SpliceKeepsAbsent(s, h.b, h.end, hs[1..], ins, w);
    SliceAbsent(s, j, h.a, w);
    AbsentAround(x, ins, y, w);
    SpliceAfterSlice(s, j, i, hs, ins);
  }

  lemma SpliceAfterSlice(s: string, j: nat, i: nat, hs: seq<Hit>, ins: string)
    requires j <= i && Chain(s, i, hs) && hs != []
    ensures Chain(s, hs[0].end, hs[1..])
    ensures s[j..i] + Splice(s, i, hs, ins) ==
      s[j..hs[0].a] + ins + (s[hs[0].b..hs[0].end] + Splice(s, hs[0].end, hs[1..], ins))
  {
    var h := hs[0];
    assert Splice(s, i, hs, ins) == s[i..h.a] + ins + s[h.b..h.end] + Splice(s, h.end, hs[1..], ins);
    Regroup(s[j..i], s[i..h.a], ins, s[h.b..h.end], Splice(s, h.end, hs[1..], ins));
    SliceJoin(s, j, i, h.a);
  }

  lemma Regroup(p: string, q: string, m: string, b: string, c: string)
    ensures p + (q + m + b + c) == (p + q) + m + (b + c)
  {
  }

  lemma SliceJoin(s: string, j: nat, i: nat, a: nat)
    requires j <= i <= a <= |s|
    ensures s[j..i] + s[i..a] == s[j..a]
  {
  }

  /** A slice of a text without `w` has no `w` either. */
  lemma SliceAbsent(s: string, lo: nat, hi: nat, w: string)
    requires lo <= hi <= |s| && !Contains(s, w)
    ensures !Contains(s[lo..hi], w)
  {
    if Contains(s[lo..hi], w) {
      SliceContains(s, lo, hi, w);
    }
  }

  /** A pass whose inserted text cannot overlap `w` never creates `w`. */
  lemma PassKeepsAbsent(p: Pattern, s: string, lim: Limit, w: string)
    requires !Contains(s, w) && NeverOverlaps(w, Inserted(p)) && Inserted(p) != []
    ensures !Contains(Sub(p, s, lim), w)
  {
    SubIsSplice(p, s, 0, lim);
    SpliceKeepsAbsent(s, 0, 0, Hits(p, s, lim), Inserted(p), w);
    assert s[0..0] + Sub(p, s, lim) == Sub(p, s, lim);
  }

  /** Between consecutive hits, and after the last one, `w` starts nowhere;
      each hit deletes up to its end. */
  predicate Gaps(s: string, i: nat, hs: seq<Hit>, w: string)
    decreases |hs|
  {
    if hs == [] then forall t :: i <= t <= |s| ==> !StartsAt(s, t, w)
    else
      && (forall t :: i <= t < hs[0].a ==> !StartsAt(s, t, w))
      && hs[0].b == hs[0].end
      && Gaps(s, hs[0].end, hs[1..], w)
  }

  lemma {:induction false} LiteralGaps(w: string, r: string, s: string, i: nat)
    requires i <= |s| && w != []
    ensures Gaps(s, i, HitsFrom(Literal(w, r), s, i, Unlimited), w)
    decreases |s| - i
  {
    var p := Literal(w, r);
    var f := FindFrom(p, s, i);
    if f.Some? {
      var h := MatchAt(p, s, f.value).value;
      var rest := HitsFrom(p, s, h.end, Unlimited);
      assert HitsFrom(p, s, i, Unlimited) == [h] + rest;
      assert ([h] + rest)[1..] == rest;
      LiteralGaps(w, r, s, h.end);
      forall t | i <= t < h.a
        ensures !StartsAt(s, t, w)
      {
        assert MatchAt(p, s, t).None?;
      }
    } else {
      forall t | i <= t <= |s|
        ensures !StartsAt(s, t, w)
      {
        assert MatchAt(p, s, t).None?;
      }
    }
  }

  lemma {:induction false} SpliceRemoves(s: string, i: nat, hs: seq<Hit>, ins: string, w: string)
    requires Chain(s, i, hs) && Gaps(s, i, hs, w)
    requires w != [] && NeverOverlaps(w, ins) && ins != []
    ensures !Contains(Splice(s, i, hs, ins), w)
    decreases |hs|, 1
  {
    if hs == [] {
      assert Splice(s, i, hs, ins) == s[i..|s|];
      GapAbsent(s, i, |s|, w);
    } else {
      SpliceRemovesStep(s, i, hs, ins, w);
    }
  }

  lemma {:induction false} SpliceRemovesStep(s: string, i: nat, hs: seq<Hit>, ins: string, w: string)
    requires Chain(s, i, hs) && Gaps(s, i, hs, w) && hs != []
    requires w != [] && NeverOverlaps(w, ins) && ins != []
    ensures !Contains(Splice(s, i, hs, ins), w)
    decreases |hs|, 0
  {
    var h := hs[0];
    GapsCons(s, i, hs, w);
    SpliceRemoves(s, h.end, hs[1..], ins, w);
    GapAbsent(s, i, h.a, w);
    AbsentAround(s[i..h.a], ins, Splice(s, h.end, hs[1..], ins), w);
    SpliceDeleting(s, i, hs, ins);
  }

  lemma GapsCons(s: string, i: nat, hs: seq<Hit>, w: string)
    requires Chain(s, i, hs) && Gaps(s, i, hs, w) && hs != []
    ensures Chain(s, hs[0].end, hs[1..]) && Gaps(s, hs[0].end, hs[1..], w)
    ensures hs[0].b == hs[0].end && forall t :: i <= t < hs[0].a ==> !StartsAt(s, t, w)
  {
  }

  lemma SpliceDeleting(s: string, i: nat, hs: seq<Hit>, ins: string)
    requires Chain(s, i, hs) && hs != [] && hs[0].b == hs[0].end
    ensures Chain(s, hs[0].end, hs[1..])
    ensures Splice(s, i, hs, ins) == s[i..hs[0].a] + ins + Splice(s, hs[0].end, hs[1..], ins)
  {
    assert s[hs[0].b..hs[0].end] == [];
  }

  /** A slice where `w` starts nowhere has no `w`. */
  lemma GapAbsent(s: string, lo: nat, hi: nat, w: string)
    requires lo <= hi <= |s| && w != []
    requires forall t :: lo <= t < hi ==> !StartsAt(s, t, w)
    ensures !Contains(s[lo..hi], w)
  {
    if Contains(s[lo..hi], w) {
      var t :| 0 <= t <= |s[lo..hi]| && StartsAt(s[lo..hi], t, w);
      SliceStartsAt(s, lo, hi, t, w);
    }
  }

  /** An uncapped `replace(w, r)` leaves no `w` behind when `r` cannot overlap `w`. */
  lemma ReplaceRemoves(w: string, r: string, s: string)
    requires w != [] && NeverOverlaps(w, r) && r != []
    ensures !Contains(Sub(Literal(w, r), s, Unlimited), w)
  {
    SubIsSplice(Literal(w, r), s, 0, Unlimited);
    LiteralGaps(w, r, s, 0);
    SpliceRemoves(s, 0, Hits(Literal(w, r), s, Unlimited), r, w);
  }

  /** `prefix\d+` takes every digit that follows the prefix: a prefix, a run of
      digits and a tail that neither starts with a digit nor holds the prefix
      again come out as the replacement followed by the tail. */
  lemma DigitRunTakesAllDigits(prefix: string, repl: string, ds: string, rest: string)
    requires prefix != [] && ds != [] && forall i :: 0 <= i < |ds| ==> IsPyDigit(ds[i])
    requires rest == [] || !IsPyDigit(rest[0])
    requires !Contains(rest, prefix)
    ensures Sub(DigitRun(prefix, repl), prefix + ds + rest, Unlimited) == repl + rest
  {
    var p := DigitRun(prefix, repl);
    var s := prefix + ds + rest;
    var e := |prefix| + |ds|;
    DigitRunHead(prefix, repl, ds, rest);
    SubStep(p, s, 0, Unlimited);
    assert s[e..] == rest;
    NoLeadNoMatch(p, s, e);
    SubDone(p, s, e, Unlimited);
    assert s[0..0] == [] && s[e..e] == [];
  }

  lemma DigitRunHead(prefix: string, repl: string, ds: string, rest: string)
    requires prefix != [] && ds != [] && forall i :: 0 <= i < |ds| ==> IsPyDigit(ds[i])
    requires rest == [] || !IsPyDigit(rest[0])
    ensures var s := prefix + ds + rest;
      var e := |prefix| + |ds|;
      FindFrom(DigitRun(prefix, repl), s, 0) == Some(0) &&
      MatchAt(DigitRun(prefix, repl), s, 0) == Some(Hit(0, e, e))
  {
    var s := prefix + ds + rest;
    StartsAtFront(prefix, ds + rest);
    assert s == prefix + (ds + rest);
    DigitsAcross(prefix, ds, rest);
  }

  lemma StartsAtFront(w: string, x: string)
    ensures StartsAt(w + x, 0, w)
  {
    assert (w + x)[..|w|] == w;
  }

  lemma DigitsAcross(prefix: string, ds: string, rest: string)
    requires forall i :: 0 <= i < |ds| ==> IsPyDigit(ds[i])
    requires rest == [] || !IsPyDigit(rest[0])
    ensures DigitsEnd(prefix + ds + rest, |prefix|) == |prefix| + |ds|
  {
    var s := prefix + ds + rest;
    var e := |prefix| + |ds|;
    assert forall k :: |prefix| <= k < e ==> s[k] == ds[k - |prefix|];
    if e < |s| {
      assert s[e] == rest[0];
    }
  }

  /** A search from `i` finds nothing when the leading word is absent there. */
  lemma NoLeadNoMatch(p: Pattern, s: string, i: nat)
    requires i <= |s| && !Contains(s[i..], Lead(p))
    ensures FindFrom(p, s, i).None?
  {
    if FindFrom(p, s, i).Some? {
      var k := FindFrom(p, s, i).value;
      StartsAtTail(s, i, k, Lead(p));
    }
  }

  lemma StartsAtTail(s: string, i: nat, k: nat, w: string)
    requires i <= k && StartsAt(s, k, w)
    ensures StartsAt(s[i..], k - i, w)
  {
    assert s[i..][k - i..k - i + |w|] == s[k..k + |w|];
  }

  lemma FindAtStart(p: Pattern, s: string)
    requires MatchAt(p, s, 0).Some?
    ensures FindFrom(p, s, 0) == Some(0)
  {
  }

  lemma SubFirst(p: Pattern, s: string, lim: Limit, h: Hit)
    requires lim != UpTo(0) && MatchAt(p, s, 0) == Some(h)
    ensures SubFrom(p, s, 0, lim) == s[0..h.a] + Inserted(p) + s[h.b..h.end] + SubFrom(p, s, h.end, lim.Dec())
  {
    FindAtStart(p, s);
    SubStep(p, s, 0, lim);
  }

  lemma JoinTail(s: string, a: nat, b: nat, e: nat, ins: string, rest: string)
    requires a <= b <= e <= |s| && rest == s[e..]
    ensures s[0..a] + ins + s[b..e] + rest == s[..a] + ins + s[b..]
  {
    assert s[b..] == s[b..e] + s[e..];
  }

  /** A pass over a text whose only match starts at its first character. */
  lemma SubSingle(p: Pattern, s: string, lim: Limit, h: Hit)
    requires lim != UpTo(0) && |s| > 0 && MatchAt(p, s, 0) == Some(h)
    requires !Contains(s[h.end..], Lead(p))
    ensures Sub(p, s, lim) == s[..h.a] + Inserted(p) + s[h.b..]
  {
    SubFirst(p, s, lim, h);
    NoLeadNoMatch(p, s, h.end);
    SubDone(p, s, h.end, lim.Dec());
    JoinTail(s, h.a, h.b, h.end, Inserted(p), SubFrom(p, s, h.end, lim.Dec()));
  }

  /** A pass over a text with no match at its first character and no leading
      word after it. */
  lemma SubNothing(p: Pattern, s: string, lim: Limit)
    requires |s| > 0 && MatchAt(p, s, 0).None? && !Contains(s[1..], Lead(p))
    ensures Sub(p, s, lim) == s
  {
    assert FindFrom(p, s, 0) == FindFrom(p, s, 1);
    NoLeadNoMatch(p, s, 1);
    SubDone(p, s, 0, lim);
  }

  /** `replace(w, w)` changes nothing. */
  lemma {:induction false} ReplaceSelf(w: string, s: string, i: nat, lim: Limit)
    requires i <= |s|
    ensures SubFrom(Literal(w, w), s, i, lim) == s[i..]
    decreases |s| - i, 1
  {
    if lim != UpTo(0) && FindFrom(Literal(w, w), s, i).Some? {
      ReplaceSelfStep(w, s, i, lim);
    } else {
      SubDone(Literal(w, w), s, i, lim);
    }
  }

  lemma {:induction false} ReplaceSelfStep(w: string, s: string, i: nat, lim: Limit)
    requires i <= |s| && lim != UpTo(0) && FindFrom(Literal(w, w), s, i).Some?
    ensures SubFrom(Literal(w, w), s, i, lim) == s[i..]
    decreases |s| - i, 0
  {
    var p := Literal(w, w);
    var k := FindFrom(p, s, i).value;
    var h := MatchAt(p, s, k).value;
    SubStep(p, s, i, lim);
    ReplaceSelf(w, s, h.end, lim.Dec());
    KeepAround(s, i, k, h.end, w);
  }

  lemma KeepAround(s: string, i: nat, k: nat, e: nat, w: string)
    requires i <= k <= e <= |s| && s[k..e] == w
    ensures s[i..k] + w + s[k..k] + s[e..] == s[i..]
  {
    assert s[i..] == s[i..k] + s[k..e] + s[e..];
  }

  // ---------------------------------------------------------------------------
  // Rules, guards and the ordered fold
  // ---------------------------------------------------------------------------

  /** A whole-file condition checked on the current text before a rule runs. */
  datatype Guard =
    | Always
      /** `if marker not in content` */
    | Without(marker: string)
      /** `if need in content and marker not in content` */
    | WithAndWithout(need: string, marker: string)

  datatype Rule = Rule(pattern: Pattern, limit: Limit, guard: Guard)

  predicate GuardHolds(g: Guard, s: string)
  {
    match g
    case Always => true
    case Without(marker) => !Occurs(s, marker)
    case WithAndWithout(need, marker) => Occurs(s, need) && !Occurs(s, marker)
  }

  function ApplyRule(r: Rule, s: string): string
  {
    if GuardHolds(r.guard, s) then Sub(r.pattern, s, r.limit) else s
  }

  /** The rules run in order, each on the text left by the ones before it. */
  function ApplyAll(rules: seq<Rule>, s: string): string
    decreases |rules|
  {
    if rules == [] then s
    else ApplyRule(rules[|rules| - 1], ApplyAll(rules[..|rules| - 1], s))
  }

  /** The run loop: `content` is rebound once per rule. */
  method Apply(rules: seq<Rule>, content: string) returns (out: string)
    ensures out == ApplyAll(rules, content)
  {
    out := content;
    for i := 0 to |rules|
      invariant out == ApplyAll(rules[..i], content)
    {
      assert rules[..i + 1][..i] == rules[..i];
      out := ApplyRule(rules[i], out);
    }
    assert rules[..|rules|] == rules;
  }

  lemma {:induction false} ApplyAllAppend(a: seq<Rule>, b: seq<Rule>, s: string)
    ensures ApplyAll(a + b, s) == ApplyAll(b, ApplyAll(a, s))
    decreases |b|
  {
    if b == [] {
      assert a + b == a;
    } else {
      assert (a + b)[..|a + b| - 1] == a + b[..|b| - 1];
      ApplyAllAppend(a, b[..|b| - 1], s);
    }
  }

  /** Rules that each leave `t` as it is leave it as it is together. */
  lemma {:induction false} ApplyAllFixed(rules: seq<Rule>, t: string)
    requires forall r :: r in rules ==> ApplyRule(r, t) == t
    ensures ApplyAll(rules, t) == t
    decreases |rules|
  {
    if rules != [] {
      var n := |rules| - 1;
      assert forall r :: r in rules[..n] ==> r in rules;
      ApplyAllFixed(rules[..n], t);
      assert rules[n] in rules;
    }
  }

  /** A run whose first rule turns `s` into `t`, whose middle rules leave `t`
      alone and whose last rule turns `t` into `u` turns `s` into `u`. */
  lemma ApplyAllThrough(first: Rule, mid: seq<Rule>, last: Rule, s: string, t: string, u: string)
    requires ApplyRule(first, s) == t && ApplyRule(last, t) == u
    requires forall r :: r in mid ==> ApplyRule(r, t) == t
    ensures ApplyAll([first] + mid + [last], s) == u
  {
    assert [first][..0] == [];
    assert ApplyAll([first], s) == t;
    ApplyAllAppend([first], mid, s);
    ApplyAllFixed(mid, t);
    ApplyAllAppend([first] + mid, [last], s);
    assert ApplyAll([last], t) == u by {
      assert [last][..0] == [];
    }
  }

  /** The guard only blocks, and the rule's own output blocks it, when the
      marker it tests for is part of the text it inserts. */
  ghost predicate SelfBlocking(r: Rule)
  {
    match r.guard
    case Always => false
    case Without(marker) => Contains(Inserted(r.pattern), marker)
    case WithAndWithout(_, marker) => Contains(Inserted(r.pattern), marker)
  }

  /** A self-blocking guarded rule changes nothing when run a second time. */
  lemma GuardedIdempotent(r: Rule, s: string)
    requires SelfBlocking(r)
    ensures ApplyRule(r, ApplyRule(r, s)) == ApplyRule(r, s)
  {
    if GuardHolds(r.guard, s) {
      var t := Sub(r.pattern, s, r.limit);
      if Hits(r.pattern, s, r.limit) == [] {
        SubIsSplice(r.pattern, s, 0, r.limit);
        assert t == s;
      } else {
        RewriteLeavesInserted(r.pattern, s, r.limit);
        var marker := if r.guard.Without? then r.guard.marker else r.guard.marker;
        ContainsTransitive(t, Inserted(r.pattern), marker);
        assert !GuardHolds(r.guard, t);
      }
    }
  }

  /** A rule whose inserted text cannot overlap `w` keeps `w` out. */
  ghost predicate Harmless(w: string, r: Rule)
  {
    Inserted(r.pattern) != [] && NeverOverlaps(w, Inserted(r.pattern))
  }

  ghost predicate AllHarmless(w: string, rules: seq<Rule>)
    decreases |rules|
  {
    rules == [] || (Harmless(w, rules[0]) && AllHarmless(w, rules[1..]))
  }

  lemma {:induction false} AllHarmlessPrefix(w: string, rules: seq<Rule>, n: nat)
    requires AllHarmless(w, rules) && n <= |rules|
    ensures AllHarmless(w, rules[..n]) && (n < |rules| ==> Harmless(w, rules[n]))
    decreases n
  {
    if n > 0 {
      AllHarmlessPrefix(w, rules[1..], n - 1);
      assert rules[..n][1..] == rules[1..][..n - 1];
    }
  }

  /** Text without `w` stays without it through rules that are all harmless to `w`. */
  lemma {:induction false} RulesKeepAbsent(rules: seq<Rule>, s: string, w: string)
    requires !Contains(s, w) && AllHarmless(w, rules)
    ensures !Contains(ApplyAll(rules, s), w)
    decreases |rules|
  {
    if rules != [] {
      var n := |rules| - 1;
      var last := rules[n];
      AllHarmlessPrefix(w, rules, n);
      RulesKeepAbsent(rules[..n], s, w);
      RuleKeepsAbsent(last, ApplyAll(rules[..n], s), w);
    }
  }

  lemma RuleKeepsAbsent(r: Rule, t: string, w: string)
    requires Harmless(w, r) && !Contains(t, w)
    ensures !Contains(ApplyRule(r, t), w)
  {
    if GuardHolds(r.guard, t) {
      PassKeepsAbsent(r.pattern, t, r.limit, w);
    }
  }

  /** Some character of `cs` is in `t`. */
  predicate HasAnyOf(t: string, cs: string)
    decreases |cs|
  {
    cs != [] && (cs[0] in t || HasAnyOf(t, cs[1..]))
  }

  /** A rule that cannot bring any character of `cs` into text lacking them
      all: its leading word holds one of them, so it cannot fire on such text,
      or it inserts none of them. */
  predicate KeepsCharsOut(r: Rule, cs: string)
  {
    HasAnyOf(Lead(r.pattern), cs) || (Inserted(r.pattern) != [] && !HasAnyOf(Inserted(r.pattern), cs))
  }

  predicate AllKeepCharsOut(rules: seq<Rule>, cs: string)
    decreases |rules|
  {
    rules == [] || (KeepsCharsOut(rules[0], cs) && AllKeepCharsOut(rules[1..], cs))
  }

  lemma {:induction false} HasAnyOfWitness(t: string, cs: string)
    requires HasAnyOf(t, cs)
    ensures exists j :: 0 <= j < |cs| && cs[j] in t
    decreases |cs|
  {
    if cs[0] !in t {
      HasAnyOfWitness(t, cs[1..]);
      var j :| 0 <= j < |cs[1..]| && cs[1..][j] in t;
      assert cs[j + 1] in t;
    }
  }

  lemma {:induction false} HasAnyOfIntro(t: string, cs: string, j: nat)
    requires j < |cs| && cs[j] in t
    ensures HasAnyOf(t, cs)
    decreases j
  {
    if j > 0 && cs[0] !in t {
      HasAnyOfIntro(t, cs[1..], j - 1);
    }
  }

  /** No character of `t` is one of `cs`. */
  lemma {:induction false} NoneOf(t: string, cs: string)
    requires forall i, j | 0 <= i < |t| && 0 <= j < |cs| :: t[i] != cs[j]
    ensures !HasAnyOf(t, cs)
    decreases |cs|
  {
    if cs != [] {
      assert cs[0] !in t by {
        forall i | 0 <= i < |t| ensures t[i] != cs[0] { assert t[i] != cs[0]; }
      }
      NoneOf(t, cs[1..]);
    }
  }

  lemma {:induction false} AllKeepCharsOutAt(rules: seq<Rule>, cs: string, i: nat)
    requires AllKeepCharsOut(rules, cs) && i < |rules|
    ensures KeepsCharsOut(rules[i], cs)
    decreases i
  {
    if i > 0 {
      AllKeepCharsOutAt(rules[1..], cs, i - 1);
    }
  }

  /** Text without any character of `cs` keeps them all out through rules
      that each keep them out. */
  lemma {:induction false} RulesKeepCharsOut(rules: seq<Rule>, s: string, cs: string)
    requires !HasAnyOf(s, cs) && AllKeepCharsOut(rules, cs)
    ensures !HasAnyOf(ApplyAll(rules, s), cs)
    decreases |rules|
  {
    if rules != [] {
      var n := |rules| - 1;
      var init := rules[..n];
      AllKeepCharsOutPrefix(rules, cs, n);
      RulesKeepCharsOut(init, s, cs);
      var t := ApplyAll(init, s);
      var r := rules[n];
      AllKeepCharsOutAt(rules, cs, n);
      if HasAnyOf(Lead(r.pattern), cs) {
        HasAnyOfWitness(Lead(r.pattern), cs);
        var j :| 0 <= j < |cs| && cs[j] in Lead(r.pattern);
        if cs[j] in t {
          HasAnyOfIntro(t, cs, j);
        }
        MissingChar(t, Lead(r.pattern), cs[j]);
        NoLeadNoChange(r.pattern, t, r.limit);
      } else if GuardHolds(r.guard, t) {
        var u := Sub(r.pattern, t, r.limit);
        if HasAnyOf(u, cs) {
          HasAnyOfWitness(u, cs);
          var j :| 0 <= j < |cs| && cs[j] in u;
          if cs[j] in Inserted(r.pattern) {
            HasAnyOfIntro(Inserted(r.pattern), cs, j);
          }
          if cs[j] in t {
            HasAnyOfIntro(t, cs, j);
          }
          CharContains(t, cs[j]);
          CharContains(u, cs[j]);
          NoOverlapChar(cs[j], Inserted(r.pattern));
          PassKeepsAbsent(r.pattern, t, r.limit, [cs[j]]);
        }
      }
    }
  }

  lemma {:induction false} AllKeepCharsOutPrefix(rules: seq<Rule>, cs: string, n: nat)
    requires AllKeepCharsOut(rules, cs) && n <= |rules|
    ensures AllKeepCharsOut(rules[..n], cs)
    decreases n
  {
    if n > 0 {
      AllKeepCharsOutPrefix(rules[1..], cs, n - 1);
      assert rules[..n][1..] == rules[1..][..n - 1];
    }
  }

  /** None of the rules' leading words occurs in `s`. */
  ghost predicate AllLeadsAbsent(rules: seq<Rule>, s: string)
    decreases |rules|
  {
    rules == [] || (!Contains(s, Lead(rules[0].pattern)) && AllLeadsAbsent(rules[1..], s))
  }

  lemma {:induction false} AllLeadsAbsentPrefix(rules: seq<Rule>, s: string, n: nat)
    requires AllLeadsAbsent(rules, s) && n <= |rules|
    ensures AllLeadsAbsent(rules[..n], s) && (n < |rules| ==> !Contains(s, Lead(rules[n].pattern)))
    decreases n
  {
    if n > 0 {
      AllLeadsAbsentPrefix(rules[1..], s, n - 1);
      assert rules[..n][1..] == rules[1..][..n - 1];
    }
  }

  /** Text holding none of the rules' leading words passes through unchanged. */
  lemma {:induction false} UntouchedByRules(rules: seq<Rule>, s: string)
    requires AllLeadsAbsent(rules, s)
    ensures ApplyAll(rules, s) == s
    decreases |rules|
  {
    if rules != [] {
      var n := |rules| - 1;
      AllLeadsAbsentPrefix(rules, s, n);
      UntouchedByRules(rules[..n], s);
      var last := rules[n];
      NoLeadNoChange(last.pattern, s, last.limit);
    }
  }

  /** Every rule's leading word holds a character of `cs`. */
  predicate LeadsHaveAnyOf(rules: seq<Rule>, cs: string)
    decreases |rules|
  {
    rules == [] || (HasAnyOf(Lead(rules[0].pattern), cs) && LeadsHaveAnyOf(rules[1..], cs))
  }

  lemma LacksChar(s: string, cs: string, j: nat)
    requires !HasAnyOf(s, cs) && j < |cs|
    ensures cs[j] !in s
  {
    if cs[j] in s {
      HasAnyOfIntro(s, cs, j);
    }
  }

  lemma {:induction false} LeadsMissAll(rules: seq<Rule>, cs: string, s: string)
    requires LeadsHaveAnyOf(rules, cs) && !HasAnyOf(s, cs)
    ensures AllLeadsAbsent(rules, s)
    decreases |rules|
  {
    if rules != [] {
      HasAnyOfWitness(Lead(rules[0].pattern), cs);
      var j :| 0 <= j < |cs| && cs[j] in Lead(rules[0].pattern);
      LacksChar(s, cs, j);
      MissingChar(s, Lead(rules[0].pattern), cs[j]);
      LeadsMissAll(rules[1..], cs, s);
    }
  }

  /** Text lacking every character of `cs` passes untouched through rules
      whose leading words each hold one of them. */
  lemma RulesIdleWithout(rules: seq<Rule>, cs: string, s: string)
    requires LeadsHaveAnyOf(rules, cs) && !HasAnyOf(s, cs)
    ensures ApplyAll(rules, s) == s
  {
    LeadsMissAll(rules, cs, s);
    UntouchedByRules(rules, s);
  }

  /** Every rule's leading word starts with one of `ws`. */
  predicate LeadsStartWithAnyOf(rules: seq<Rule>, ws: seq<string>)
    decreases |rules|
  {
    rules == [] || (StartsWithAnyOf(Lead(rules[0].pattern), ws) && LeadsStartWithAnyOf(rules[1..], ws))
  }

  predicate StartsWithAnyOf(t: string, ws: seq<string>)
    decreases |ws|
  {
    ws != [] && (StartsWith(t, ws[0]) || StartsWithAnyOf(t, ws[1..]))
  }

  lemma {:induction false} PrefixAbsent(t: string, ws: seq<string>, s: string)
    requires StartsWithAnyOf(t, ws) && NoneOccur(s, ws)
    ensures !Contains(s, t)
    decreases |ws|
  {
    if StartsWith(t, ws[0]) {
      assert StartsAt(t, 0, ws[0]);
      if Contains(s, t) {
        ContainsTransitive(s, t, ws[0]);
      }
    } else {
      PrefixAbsent(t, ws[1..], s);
    }
  }

  lemma {:induction false} PrefixedLeadsAbsent(rules: seq<Rule>, ws: seq<string>, s: string)
    requires LeadsStartWithAnyOf(rules, ws) && NoneOccur(s, ws)
    ensures AllLeadsAbsent(rules, s)
    decreases |rules|
  {
    if rules != [] {
      PrefixAbsent(Lead(rules[0].pattern), ws, s);
      PrefixedLeadsAbsent(rules[1..], ws, s);
    }
  }

  /** A rule that leaves unchanged the text it is given can be dropped from
      the list without changing the result. */
  lemma DeadRule(rules: seq<Rule>, i: nat, s: string)
    requires i < |rules|
    requires ApplyRule(rules[i], ApplyAll(rules[..i], s)) == ApplyAll(rules[..i], s)
    ensures ApplyAll(rules, s) == ApplyAll(rules[..i] + rules[i + 1..], s)
  {
    assert rules == rules[..i] + [rules[i]] + rules[i + 1..];
    ApplyAllAppend(rules[..i] + [rules[i]], rules[i + 1..], s);
    ApplyAllAppend(rules[..i], rules[i + 1..], s);
    assert (rules[..i] + [rules[i]])[..i] == rules[..i];
  }
}
