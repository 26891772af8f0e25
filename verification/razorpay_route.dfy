/** Checks run on an organiser's payout details before the organiser is
    registered with the payment provider: the PAN-holder / bank-holder name
    match and the IFSC, PAN and account-number formats. */
module RazorpayRoute {
  import opened Text

  // ---------------------------------------------------------------------------
  // Name normalisation
  // ---------------------------------------------------------------------------

  /** `.replace(/\s+/g, " ")`: every maximal run of whitespace becomes one
      space. Stated locally: a whitespace character followed by another one
      is dropped, and the last of a run is written as a space. */
  function CollapseRuns(s: string): (r: string)
    ensures SingleSpaced(r)
    ensures r == [] <==> s == []
    ensures r != [] ==> (r[0] == ' ' <==> IsJsSpace(s[0]))
    ensures r != [] ==> (r[|r| - 1] == ' ' <==> IsJsSpace(s[|s| - 1]))
    ensures forall i :: 0 <= i < |r| ==> !IsUpper(r[i]) || r[i] in s
    decreases |s|
  {
    if s == [] then []
    else if IsJsSpace(s[0]) && |s| > 1 && IsJsSpace(s[1]) then CollapseRuns(s[1..])
    else
      var rest := CollapseRuns(s[1..]);
      var c := if IsJsSpace(s[0]) then ' ' else s[0];
      assert forall i :: 0 <= i < |rest| ==> !IsUpper(rest[i]) || rest[i] in s by {
        forall i | 0 <= i < |rest| && IsUpper(rest[i]) ensures rest[i] in s {
          assert rest[i] in s[1..];
        }
      }
      [c] + rest
  }

  /** The only whitespace is a plain space, never two in a row. */
  predicate SingleSpaced(r: string)
  {
    && (forall i :: 0 <= i < |r| ==> IsJsSpace(r[i]) ==> r[i] == ' ')
    && (forall i :: 0 <= i < |r| - 1 ==> r[i] == ' ' ==> r[i + 1] != ' ')
  }

  /** The form both names are compared in: trimmed, lower-cased, single-spaced. */
  function Normalize(name: string): (r: string)
    ensures Canonical(r)
  {
    var t := Trim(name);
    var l := Lower(t);
    var r := CollapseRuns(l);
    forall i | 0 <= i < |r|
      ensures !IsUpper(r[i])
    {
      if r[i] in l {
        var j :| 0 <= j < |l| && l[j] == r[i];
      }
    }
    r
  }

  /** Text that normalisation leaves as it is. */
  predicate Canonical(r: string)
  {
    && SingleSpaced(r)
    && (forall i :: 0 <= i < |r| ==> !IsUpper(r[i]))
    && (r != [] ==> r[0] != ' ' && r[|r| - 1] != ' ')
  }

  lemma {:induction false} CollapseFixed(s: string)
    requires SingleSpaced(s)
    ensures CollapseRuns(s) == s
    decreases |s|
  {
    if s != [] {
      assert SingleSpaced(s[1..]);
      CollapseFixed(s[1..]);
      if IsJsSpace(s[0]) && |s| > 1 {
        assert s[0] == ' ' && s[1] != ' ';
      }
    }
  }

  lemma LowerFixed(s: string)
    requires forall i :: 0 <= i < |s| ==> !IsUpper(s[i])
    ensures Lower(s) == s
  {
  }

  /** Normalising twice is normalising once. */
  lemma NormalizeIdempotent(name: string)
    ensures Normalize(Normalize(name)) == Normalize(name)
  {
    var n := Normalize(name);
    TrimFixed(n);
    LowerFixed(n);
    CollapseFixed(n);
  }

  // Case does not matter.

  /** The two strings differ at most in the case of their letters. */
  predicate SameUpToCase(s: string, t: string)
  {
    |s| == |t| && forall i :: 0 <= i < |s| ==> ToLowerChar(s[i]) == ToLowerChar(t[i])
  }

  lemma SkipSpaceSame(s: string, t: string, i: nat)
    requires SameUpToCase(s, t) && i <= |s|
    ensures SkipSpace(s, i) == SkipSpace(t, i)
    decreases |s| - i
  {
    if i < |s| {
      assert IsJsSpace(s[i]) <==> IsJsSpace(t[i]) by {
        assert IsJsSpace(s[i]) <==> IsJsSpace(ToLowerChar(s[i]));
        assert IsJsSpace(t[i]) <==> IsJsSpace(ToLowerChar(t[i]));
      }
      SkipSpaceSame(s, t, i + 1);
    }
  }

  lemma BackSpaceSame(s: string, t: string, j: nat)
    requires SameUpToCase(s, t) && j <= |s|
    ensures BackSpace(s, j) == BackSpace(t, j)
  {
    if j > 0 {
      assert IsJsSpace(s[j - 1]) <==> IsJsSpace(t[j - 1]) by {
        assert IsJsSpace(s[j - 1]) <==> IsJsSpace(ToLowerChar(s[j - 1]));
        assert IsJsSpace(t[j - 1]) <==> IsJsSpace(ToLowerChar(t[j - 1]));
      }
      BackSpaceSame(s, t, j - 1);
    }
  }

  /** Names that differ only in letter case normalise alike. */
  lemma NormalizeIgnoresCase(s: string, t: string)
    requires SameUpToCase(s, t)
    ensures Normalize(s) == Normalize(t)
  {
    TrimSameUpToCase(s, t);
    LowerSameUpToCase(Trim(s), Trim(t));
  }

  lemma TrimSameUpToCase(s: string, t: string)
    requires SameUpToCase(s, t)
    ensures SameUpToCase(Trim(s), Trim(t))
  {
    SkipSpaceSame(s, t, 0);
    BackSpaceSame(s, t, |s|);
  }

  lemma LowerSameUpToCase(s: string, t: string)
    requires SameUpToCase(s, t)
    ensures Lower(s) == Lower(t)
  {
  }

  // Runs of inner whitespace do not matter.

  lemma {:induction false} CollapseRunsLead(w: string, y: string)
    requires w != [] && IsBlank(w)
    ensures CollapseRuns(w + y) == CollapseRuns(" " + y)
    decreases |w|
  {
    if |w| > 1 {
      assert (w + y)[1..] == w[1..] + y;
      CollapseRunsLead(w[1..], y);
    } else {
      assert (w + y)[1..] == y == (" " + y)[1..];
    }
  }

  lemma {:induction false} CollapseRunsInner(x: string, w: string, y: string)
    requires w != [] && IsBlank(w)
    ensures CollapseRuns(x + w + y) == CollapseRuns(x + " " + y)
    decreases |x|
  {
    if x == [] {
      assert x + w + y == w + y && x + " " + y == " " + y;
      CollapseRunsLead(w, y);
    } else {
      assert (x + w + y)[1..] == x[1..] + w + y;
      assert (x + " " + y)[1..] == x[1..] + " " + y;
      CollapseRunsInner(x[1..], w, y);
    }
  }

  lemma LowerConcat(x: string, y: string)
    ensures Lower(x + y) == Lower(x) + Lower(y)
  {
    var u := x + y;
    forall i | 0 <= i < |u|
      ensures Lower(u)[i] == (Lower(x) + Lower(y))[i]
    {
      if i < |x| {
        assert u[i] == x[i];
      } else {
        assert u[i] == y[i - |x|];
      }
    }
  }

  lemma BlankLower(w: string)
    requires IsBlank(w)
    ensures Lower(w) == w
  {
    forall i | 0 <= i < |w|
      ensures !IsUpper(w[i])
    {
      assert IsJsSpace(w[i]);
    }
    LowerFixed(w);
  }

  lemma LowerAround(x: string, w: string, y: string)
    requires IsBlank(w)
    ensures Lower(x + w + y) == Lower(x) + w + Lower(y)
  {
    LowerConcat(x + w, y);
    LowerConcat(x, w);
    BlankLower(w);
  }

  lemma EndsOfJoin(x: string, w: string, y: string)
    requires x != [] && y != []
    ensures (x + w + y)[0] == x[0] && (x + w + y)[|x + w + y| - 1] == y[|y| - 1]
  {
  }

  /** Text with no whitespace at either end is normalised without trimming. */
  lemma NormalizeUntrimmed(s: string)
    requires s == [] || (!IsJsSpace(s[0]) && !IsJsSpace(s[|s| - 1]))
    ensures Normalize(s) == CollapseRuns(Lower(s))
  {
    TrimFixed(s);
  }

  lemma NormalizeAround(x: string, w: string, y: string)
    requires x != [] && !IsJsSpace(x[0]) && y != [] && !IsJsSpace(y[|y| - 1])
    requires IsBlank(w)
    ensures Normalize(x + w + y) == CollapseRuns(Lower(x) + w + Lower(y))
  {
    EndsOfJoin(x, w, y);
    NormalizeUntrimmed(x + w + y);
    LowerAround(x, w, y);
  }

  /** Between two words, any run of whitespace counts as one space. */
  lemma NormalizeIgnoresRuns(x: string, w: string, y: string)
    requires x != [] && !IsJsSpace(x[0]) && y != [] && !IsJsSpace(y[|y| - 1])
    requires w != [] && IsBlank(w)
    ensures Normalize(x + w + y) == Normalize(x + " " + y)
  {
    NormalizeAround(x, w, y);
    NormalizeAroundSpace(x, y);
    CollapseRunsInner(Lower(x), w, Lower(y));
  }

  lemma NormalizeAroundSpace(x: string, y: string)
    requires x != [] && !IsJsSpace(x[0]) && y != [] && !IsJsSpace(y[|y| - 1])
    ensures Normalize(x + " " + y) == CollapseRuns(Lower(x) + " " + Lower(y))
  {
    assert IsBlank(" ");
    NormalizeAround(x, " ", y);
  }

  /** Leading and trailing whitespace never changes the normal form. */
  lemma NormalizeIgnoresPadding(w1: string, s: string, w2: string)
    requires IsBlank(w1) && IsBlank(w2)
    ensures Normalize(w1 + s + w2) == Normalize(s)
  {
    TrimPadding(w1, s, w2);
  }

  // ---------------------------------------------------------------------------
  // Name match
  // ---------------------------------------------------------------------------

  /** The words of a normalised name: `norm.split(" ")`. */
  function Words(name: string): (r: seq<string>)
    ensures |r| >= 1
  {
    SplitOn(Normalize(name), ' ')
  }

  /** Every word of `shorter` is one of the words of `longer` (`every` /
      `includes`: membership, not a count). */
  predicate AllWordsIn(shorter: seq<string>, longer: seq<string>)
  {
    forall k :: 0 <= k < |shorter| ==> shorter[k] in longer
  }

  /** `validatePanBankNameMatch`: equal normal forms match; otherwise every
      word of the name with fewer words (the first on a tie) must be a word
      of the other. */
  function NamesMatch(legalName: string, holderName: string): (r: bool)
    ensures Normalize(legalName) == Normalize(holderName) ==> r
  {
    var n1 := Normalize(legalName);
    var n2 := Normalize(holderName);
    if n1 == n2 then true
    else
      var p1 := Words(legalName);
      var p2 := Words(holderName);
      var shorter := if |p1| <= |p2| then p1 else p2;
      var longer := if |p1| > |p2| then p1 else p2;
      AllWordsIn(shorter, longer)
  }

  /** The match sees names only through their normal form. */
  lemma NamesMatchByNormalForm(a: string, a2: string, b: string)
    requires Normalize(a) == Normalize(a2)
    ensures NamesMatch(a, b) == NamesMatch(a2, b)
    ensures NamesMatch(b, a) == NamesMatch(b, a2)
  {
  }

  /** Letter case never changes the verdict. */
  lemma NamesMatchIgnoresCase(a: string, a2: string, b: string)
    requires SameUpToCase(a, a2)
    ensures NamesMatch(a, b) == NamesMatch(a2, b)
    ensures NamesMatch(b, a) == NamesMatch(b, a2)
  {
    NormalizeIgnoresCase(a, a2);
    NamesMatchByNormalForm(a, a2, b);
  }

  /** Nor does the width of the gap between two words. */
  lemma NamesMatchIgnoresRuns(x: string, w: string, y: string, b: string)
    requires x != [] && !IsJsSpace(x[0]) && y != [] && !IsJsSpace(y[|y| - 1])
    requires w != [] && IsBlank(w)
    ensures NamesMatch(x + w + y, b) == NamesMatch(x + " " + y, b)
  {
    NormalizeIgnoresRuns(x, w, y);
    NamesMatchByNormalForm(x + w + y, x + " " + y, b);
  }

  /** Nor does whitespace around either name. */
  lemma NamesMatchIgnoresPadding(w1: string, a: string, w2: string, b: string)
    requires IsBlank(w1) && IsBlank(w2)
    ensures NamesMatch(w1 + a + w2, b) == NamesMatch(a, b)
    ensures NamesMatch(b, w1 + a + w2) == NamesMatch(b, a)
  {
    NormalizeIgnoresPadding(w1, a, w2);
    NamesMatchByNormalForm(w1 + a + w2, a, b);
  }

  /** Text already in normal form is its own normal form. */
  lemma CanonicalFixed(n: string)
    requires Canonical(n)
    ensures Normalize(n) == n
  {
    TrimFixed(n);
    LowerFixed(n);
    CollapseFixed(n);
  }

  /** A single lower-case word: no whitespace, no capital letters. */
  predicate IsWord(u: string)
  {
    u != [] && forall i :: 0 <= i < |u| ==> !IsJsSpace(u[i]) && !IsUpper(u[i])
  }

  lemma SplitSingle(v: string)
    requires ' ' !in v
    ensures SplitOn(v, ' ') == [v]
  {
    assert IndexOfFrom(v, 0, ' ') == |v|;
  }

  lemma SplitPair(u: string, v: string)
    requires ' ' !in u && ' ' !in v
    ensures SplitOn(u + " " + v, ' ') == [u, v]
  {
    var s := u + " " + v;
    var r := IndexOfFrom(s, 0, ' ');
    assert s[|u|] == ' ';
    assert r == |u|;
    assert s[..r] == u;
    assert s[r + 1..] == v;
    SplitSingle(v);
  }

  lemma TwoWordsCanonical(u: string, v: string)
    requires IsWord(u) && IsWord(v)
    ensures Canonical(u + " " + v)
  {
    var s := u + " " + v;
    forall i | 0 <= i < |s|
      ensures IsJsSpace(s[i]) ==> s[i] == ' '
      ensures !IsUpper(s[i])
    {
      if i < |u| {
        assert s[i] == u[i];
      } else if i > |u| {
        assert s[i] == v[i - |u| - 1];
      }
    }
    forall i | 0 <= i < |s| - 1
      ensures s[i] == ' ' ==> s[i + 1] != ' '
    {
      if i < |u| {
        assert s[i] == u[i];
      } else if i > |u| {
        assert s[i] == v[i - |u| - 1];
      } else {
        assert s[i + 1] == v[0];
      }
    }
    assert s[|s| - 1] == v[|v| - 1];
  }

  lemma TwoWords(u: string, v: string)
    requires IsWord(u) && IsWord(v)
    ensures Words(u + " " + v) == [u, v]
  {
    TwoWordsCanonical(u, v);
    CanonicalFixed(u + " " + v);
    assert ' ' !in u by { assert forall i :: 0 <= i < |u| ==> u[i] != ' '; }
    assert ' ' !in v by { assert forall i :: 0 <= i < |v| ==> v[i] != ' '; }
    SplitPair(u, v);
  }

  /** Names with different words are judged word by word. */
  lemma NamesMatchWhenWordsDiffer(a: string, b: string)
    requires Words(a) != Words(b)
    ensures NamesMatch(a, b) ==
      if |Words(a)| <= |Words(b)| then AllWordsIn(Words(a), Words(b)) else AllWordsIn(Words(b), Words(a))
  {
  }

  /** A name whose words are `u u` matches one whose words are `u v`, and
      not the other way round. */
  lemma RepeatedWordMatchesOneWay(a: string, b: string, u: string, v: string)
    requires Words(a) == [u, u] && Words(b) == [u, v] && u != v
    ensures NamesMatch(a, b) && !NamesMatch(b, a)
  {
    assert [u, u] != [u, v] by { assert [u, u][1] != [u, v][1]; }
    NamesMatchWhenWordsDiffer(a, b);
    NamesMatchWhenWordsDiffer(b, a);
    assert AllWordsIn([u, u], [u, v]);
    assert !AllWordsIn([u, v], [u, u]) by { assert [u, v][1] !in [u, u]; }
  }

  /** The match is not symmetric: a repeated word of the shorter name only
      has to appear once in the other. "john john" matches "john smith",
      while "smith" is not a word of "john john". */
  lemma {:induction false} NamesMatchNotSymmetric(u: string, v: string)
    requires IsWord(u) && IsWord(v) && u != v
    ensures NamesMatch(u + " " + u, u + " " + v)
    ensures !NamesMatch(u + " " + v, u + " " + u)
  {
    TwoWords(u, u);
    TwoWords(u, v);
    RepeatedWordMatchesOneWay(u + " " + u, u + " " + v, u, v);
  }

  // ---------------------------------------------------------------------------
  // Formats
  // ---------------------------------------------------------------------------

  /** `/^[A-Z]{4}0[A-Z0-9]{6}$/` on upper-cased text. */
  predicate IfscPattern(u: string)
  {
    && |u| == 11
    && (forall i :: 0 <= i < 4 ==> IsUpper(u[i]))
    && u[4] == '0'
    && (forall i :: 5 <= i < 11 ==> IsUpper(u[i]) || IsDigit(u[i]))
  }

  /** `validateIFSCFormat`: four letters, a zero and six letters or digits,
      in either case. */
  predicate IsIfsc(code: string)
  {
    IfscPattern(Upper(code))
  }

  /** The IFSC check read on the code as typed. */
  lemma IfscChars(code: string)
    ensures IsIfsc(code) <==>
      && |code| == 11
      && (forall i :: 0 <= i < 4 ==> IsLetter(code[i]))
      && code[4] == '0'
      && (forall i :: 5 <= i < 11 ==> IsAlnum(code[i]))
  {
    UpperKeepsKinds(code);
  }

  /** What upper-casing keeps: letters stay letters (now upper case), digits
      and every other character stay as they are. */
  lemma UpperKeepsKinds(s: string)
    ensures forall i :: 0 <= i < |s| ==> (IsUpper(Upper(s)[i]) <==> IsLetter(s[i]))
    ensures forall i :: 0 <= i < |s| ==> (IsDigit(Upper(s)[i]) <==> IsDigit(s[i]))
    ensures forall i :: 0 <= i < |s| ==> (Upper(s)[i] == '0' <==> s[i] == '0')
  {
  }

  /** `/^[A-Z]{5}[0-9]{4}[A-Z]{1}$/` on upper-cased text. */
  predicate PanPattern(u: string)
  {
    && |u| == 10
    && (forall i :: 0 <= i < 5 ==> IsUpper(u[i]))
    && (forall i :: 5 <= i < 9 ==> IsDigit(u[i]))
    && IsUpper(u[9])
  }

  /** `validatePANFormat`: five letters, four digits and a letter, in either case. */
  predicate IsPan(pan: string)
  {
    PanPattern(Upper(pan))
  }

  /** The PAN check read on the number as typed. */
  lemma PanChars(pan: string)
    ensures IsPan(pan) <==>
      && |pan| == 10
      && (forall i :: 0 <= i < 5 ==> IsLetter(pan[i]))
      && (forall i :: 5 <= i < 9 ==> IsDigit(pan[i]))
      && IsLetter(pan[9])
  {
    UpperKeepsKinds(pan);
  }

  /** Both strings have letters, digits and zeros at the same places. */
  predicate SameKinds(s: string, t: string)
  {
    && |s| == |t|
    && (forall i :: 0 <= i < |s| ==> (IsLetter(s[i]) <==> IsLetter(t[i])))
    && (forall i :: 0 <= i < |s| ==> (IsDigit(s[i]) <==> IsDigit(t[i])))
    && (forall i :: 0 <= i < |s| ==> (s[i] == '0' <==> t[i] == '0'))
  }

  lemma CaseKeepsKinds(s: string)
    ensures SameKinds(Lower(s), s) && SameKinds(Upper(s), s)
  {
    UpperKeepsKinds(s);
    forall i | 0 <= i < |s|
      ensures IsDigit(Lower(s)[i]) <==> IsDigit(s[i])
      ensures Lower(s)[i] == '0' <==> s[i] == '0'
    {
      assert Lower(s)[i] == ToLowerChar(s[i]);
    }
  }

  lemma KindsDecideFormats(s: string, t: string)
    requires SameKinds(s, t)
    ensures IsIfsc(s) == IsIfsc(t) && IsPan(s) == IsPan(t)
  {
    IfscChars(s);
    IfscChars(t);
    PanChars(s);
    PanChars(t);
  }

  /** Lower-case codes are as good as upper-case ones. */
  lemma FormatsIgnoreCase(s: string)
    ensures IsIfsc(Lower(s)) == IsIfsc(s) && IsIfsc(Upper(s)) == IsIfsc(s)
    ensures IsPan(Lower(s)) == IsPan(s) && IsPan(Upper(s)) == IsPan(s)
  {
    CaseKeepsKinds(s);
    KindsDecideFormats(Lower(s), s);
    KindsDecideFormats(Upper(s), s);
  }

  /** `validateBankAccountFormat`: `/^[0-9]{9,18}$/`, no upper-casing, so
      any space makes the number invalid. */
  function IsBankAccount(account: string): (r: bool)
    ensures r ==> forall i :: 0 <= i < |account| ==> !IsJsSpace(account[i])
    ensures r ==> 9 <= |account| <= 18
  {
    9 <= |account| <= 18 && forall i :: 0 <= i < |account| ==> IsDigit(account[i])
  }
}
