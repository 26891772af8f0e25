/** Character classes and string helpers shared by the whole model.

    Python and JavaScript disagree on what whitespace is, so each gets its
    own predicate. Case mapping is ASCII-only throughout the model. */
module Text {

  datatype Option<T> = None | Some(value: T)

  /** An optional string JavaScript treats as true: present and not empty. */
  predicate Truthy(o: Option<string>)
  {
    o.Some? && o.value != []
  }

  // ---------------------------------------------------------------------------
  // Character classes
  // ---------------------------------------------------------------------------

  /** Python's `str.isspace`, which is also what `\s` matches in a `str` pattern. */
  predicate IsPySpace(c: char)
  {
    || c == ' ' || c == '\t' || c == '\n' || c == '\r' || c == '\U{0B}' || c == '\U{0C}'
    || ('\U{1C}' <= c <= '\U{1F}') || c == '\U{85}' || c == '\U{A0}' || c == '\U{1680}'
    || ('\U{2000}' <= c <= '\U{200A}') || c == '\U{2028}' || c == '\U{2029}'
    || c == '\U{202F}' || c == '\U{205F}' || c == '\U{3000}'
  }

  /** JavaScript's `\s` class; `String.prototype.trim` strips the same set. */
  predicate IsJsSpace(c: char)
  {
    || c == ' ' || c == '\t' || c == '\n' || c == '\r' || c == '\U{0B}' || c == '\U{0C}'
    || c == '\U{A0}' || c == '\U{1680}' || ('\U{2000}' <= c <= '\U{200A}')
    || c == '\U{2028}' || c == '\U{2029}' || c == '\U{202F}' || c == '\U{205F}'
    || c == '\U{3000}' || c == '\U{FEFF}'
  }

  predicate IsDigit(c: char) { '0' <= c <= '9' }

  /** Python's `\d` on text: a decimal digit of any script (Unicode 15.0
      general category Nd, ten consecutive code points from each zero). */
  predicate IsPyDigit(c: char)
  {
    || IsDigit(c) || ('\U{660}' <= c <= '\U{669}') || ('\U{6F0}' <= c <= '\U{6F9}')
    || ('\U{7C0}' <= c <= '\U{7C9}') || ('\U{966}' <= c <= '\U{96F}') || ('\U{9E6}' <= c <= '\U{9EF}')
    || ('\U{A66}' <= c <= '\U{A6F}') || ('\U{AE6}' <= c <= '\U{AEF}') || ('\U{B66}' <= c <= '\U{B6F}')
    || ('\U{BE6}' <= c <= '\U{BEF}') || ('\U{C66}' <= c <= '\U{C6F}') || ('\U{CE6}' <= c <= '\U{CEF}')
    || ('\U{D66}' <= c <= '\U{D6F}') || ('\U{DE6}' <= c <= '\U{DEF}') || ('\U{E50}' <= c <= '\U{E59}')
    || ('\U{ED0}' <= c <= '\U{ED9}') || ('\U{F20}' <= c <= '\U{F29}') || ('\U{1040}' <= c <= '\U{1049}')
    || ('\U{1090}' <= c <= '\U{1099}') || ('\U{17E0}' <= c <= '\U{17E9}') || ('\U{1810}' <= c <= '\U{1819}')
    || ('\U{1946}' <= c <= '\U{194F}') || ('\U{19D0}' <= c <= '\U{19D9}') || ('\U{1A80}' <= c <= '\U{1A89}')
    || ('\U{1A90}' <= c <= '\U{1A99}') || ('\U{1B50}' <= c <= '\U{1B59}') || ('\U{1BB0}' <= c <= '\U{1BB9}')
    || ('\U{1C40}' <= c <= '\U{1C49}') || ('\U{1C50}' <= c <= '\U{1C59}') || ('\U{A620}' <= c <= '\U{A629}')
    || ('\U{A8D0}' <= c <= '\U{A8D9}') || ('\U{A900}' <= c <= '\U{A909}') || ('\U{A9D0}' <= c <= '\U{A9D9}')
    || ('\U{A9F0}' <= c <= '\U{A9F9}') || ('\U{AA50}' <= c <= '\U{AA59}') || ('\U{ABF0}' <= c <= '\U{ABF9}')
    || ('\U{FF10}' <= c <= '\U{FF19}') || ('\U{104A0}' <= c <= '\U{104A9}') || ('\U{10D30}' <= c <= '\U{10D39}')
    || ('\U{11066}' <= c <= '\U{1106F}') || ('\U{110F0}' <= c <= '\U{110F9}') || ('\U{11136}' <= c <= '\U{1113F}')
    || ('\U{111D0}' <= c <= '\U{111D9}') || ('\U{112F0}' <= c <= '\U{112F9}') || ('\U{11450}' <= c <= '\U{11459}')
    || ('\U{114D0}' <= c <= '\U{114D9}') || ('\U{11650}' <= c <= '\U{11659}') || ('\U{116C0}' <= c <= '\U{116C9}')
    || ('\U{11730}' <= c <= '\U{11739}') || ('\U{118E0}' <= c <= '\U{118E9}') || ('\U{11950}' <= c <= '\U{11959}')
    || ('\U{11C50}' <= c <= '\U{11C59}') || ('\U{11D50}' <= c <= '\U{11D59}') || ('\U{11DA0}' <= c <= '\U{11DA9}')
    || ('\U{11F50}' <= c <= '\U{11F59}') || ('\U{16A60}' <= c <= '\U{16A69}') || ('\U{16AC0}' <= c <= '\U{16AC9}')
    || ('\U{16B50}' <= c <= '\U{16B59}') || ('\U{1D7CE}' <= c <= '\U{1D7D7}') || ('\U{1D7D8}' <= c <= '\U{1D7E1}')
    || ('\U{1D7E2}' <= c <= '\U{1D7EB}') || ('\U{1D7EC}' <= c <= '\U{1D7F5}') || ('\U{1D7F6}' <= c <= '\U{1D7FF}')
    || ('\U{1E140}' <= c <= '\U{1E149}') || ('\U{1E2F0}' <= c <= '\U{1E2F9}') || ('\U{1E4F0}' <= c <= '\U{1E4F9}')
    || ('\U{1E950}' <= c <= '\U{1E959}') || ('\U{1FBF0}' <= c <= '\U{1FBF9}')
  }

  /** Below U+0660 the only decimal digits are the ASCII ones. */
  lemma PyDigitBelowArabic(c: char)
    requires c < '\U{660}'
    ensures IsPyDigit(c) <==> IsDigit(c)
  {
  }

  predicate IsUpper(c: char) { 'A' <= c <= 'Z' }
  predicate IsLower(c: char) { 'a' <= c <= 'z' }
  predicate IsLetter(c: char) { IsUpper(c) || IsLower(c) }
  predicate IsAlnum(c: char) { IsLetter(c) || IsDigit(c) }
  predicate IsHexDigit(c: char) { IsDigit(c) || 'a' <= c <= 'f' || 'A' <= c <= 'F' }

  function ToLowerChar(c: char): (r: char)
    ensures !IsUpper(r)
    ensures IsLetter(c) <==> IsLetter(r)
    ensures !IsUpper(c) ==> r == c
  {
    if IsUpper(c) then (c as int + 32) as char else c
  }

  function ToUpperChar(c: char): (r: char)
    ensures !IsLower(r)
    ensures IsLetter(c) <==> IsLetter(r)
    ensures IsDigit(c) <==> IsDigit(r)
    ensures !IsLower(c) ==> r == c
  {
    if IsLower(c) then (c as int - 32) as char else c
  }

  /** `toLowerCase()`, ASCII letters only. */
  function Lower(s: string): (r: string)
    ensures |r| == |s|
    ensures forall i :: 0 <= i < |s| ==> r[i] == ToLowerChar(s[i])
  {
    if s == [] then [] else [ToLowerChar(s[0])] + Lower(s[1..])
  }

  /** `toUpperCase()`, ASCII letters only. */
  function Upper(s: string): (r: string)
    ensures |r| == |s|
    ensures forall i :: 0 <= i < |s| ==> r[i] == ToUpperChar(s[i])
  {
    if s == [] then [] else [ToUpperChar(s[0])] + Upper(s[1..])
  }

  // ---------------------------------------------------------------------------
  // Occurrences
  // ---------------------------------------------------------------------------

  /** `w` occurs in `s` starting at index `i`. */
  predicate StartsAt(s: string, i: int, w: string)
  {
    0 <= i && i + |w| <= |s| && s[i..i + |w|] == w
  }

  predicate StartsWith(s: string, w: string)
  {
    |w| <= |s| && s[..|w|] == w
  }

  /** `w in s` (Python) or `s.includes(w)` (JavaScript). */
  ghost predicate Contains(s: string, w: string)
  {
    exists i :: 0 <= i <= |s| && StartsAt(s, i, w)
  }

  /** A computable form of `Contains`, used where concrete text is checked. */
  function Occurs(s: string, w: string): (r: bool)
    ensures r <==> Contains(s, w)
    decreases |s|
  {
    if |w| > |s| then false
    else if s[..|w|] == w then assert StartsAt(s, 0, w); true
    else
      var r := Occurs(s[1..], w);
      assert r ==> Contains(s, w) by {
        if r {
          var i :| 0 <= i <= |s[1..]| && StartsAt(s[1..], i, w);
          assert s[i + 1..i + 1 + |w|] == s[1..][i..i + |w|];
          assert StartsAt(s, i + 1, w);
        }
      }
      assert Contains(s, w) ==> r by {
        if Contains(s, w) {
          var i :| 0 <= i <= |s| && StartsAt(s, i, w);
          assert i != 0;
          assert s[1..][i - 1..i - 1 + |w|] == s[i..i + |w|];
          assert StartsAt(s[1..], i - 1, w);
        }
      }
      r
  }

  /** Substring containment is transitive. */
  lemma {:induction false} ContainsTransitive(a: string, b: string, c: string)
    requires Contains(a, b) && Contains(b, c)
    ensures Contains(a, c)
  {
    var i :| 0 <= i <= |a| && StartsAt(a, i, b);
    var j :| 0 <= j <= |b| && StartsAt(b, j, c);
    forall k | 0 <= k < |c|
      ensures a[i + j + k] == c[k]
    {
      assert a[i + j + k] == b[j + k];
    }
    assert a[i + j..i + j + |c|] == c;
    assert StartsAt(a, i + j, c);
  }

  /** Whatever occurs in one side occurs in a concatenation. */
  lemma ContainsInConcat(x: string, y: string, w: string)
    requires Contains(x, w) || Contains(y, w)
    ensures Contains(x + y, w)
  {
    if Contains(x, w) {
      var i :| 0 <= i <= |x| && StartsAt(x, i, w);
      assert (x + y)[i..i + |w|] == x[i..i + |w|];
      assert StartsAt(x + y, i, w);
    } else {
      var i :| 0 <= i <= |y| && StartsAt(y, i, w);
      assert (x + y)[|x| + i..|x| + i + |w|] == y[i..i + |w|];
      assert StartsAt(x + y, |x| + i, w);
    }
  }

  /** A one-character word occurs exactly when the character does. */
  lemma CharContains(s: string, c: char)
    ensures Contains(s, [c]) <==> c in s
  {
    if c in s {
      var i :| 0 <= i < |s| && s[i] == c;
      assert s[i..i + 1] == [c];
      assert StartsAt(s, i, [c]);
    }
    if Contains(s, [c]) {
      var i :| 0 <= i <= |s| && StartsAt(s, i, [c]);
      assert s[i] == s[i..i + 1][0];
    }
  }

  /** A word holding a character the text lacks does not occur in it. */
  lemma MissingChar(s: string, w: string, c: char)
    requires c in w && c !in s
    ensures !Contains(s, w)
  {
    var k :| 0 <= k < |w| && w[k] == c;
    forall i | 0 <= i <= |s|
      ensures !StartsAt(s, i, w)
    {
      if i + |w| <= |s| {
        assert s[i..i + |w|][k] == s[i + k];
      }
    }
  }

  /** Every index of `s` from `i` on that holds the first character of `w` is
      listed in `ps`, in order, each with an index of `w` at which `w` placed
      there disagrees with `s` (or `w` would run past the end of `s`). */
  predicate Excluded(s: string, w: string, i: nat, ps: seq<(nat, nat)>)
    requires w != [] && i <= |s|
    decreases |ps|
  {
    if ps == [] then w[0] !in s[i..]
    else
      var p := ps[0].0;
      var o := ps[0].1;
      && i <= p < |s| && w[0] !in s[i..p]
      && (p + |w| > |s| || (o < |w| && p + o < |s| && s[p + o] != w[o]))
      && Excluded(s, w, p + 1, ps[1..])
  }

  lemma {:induction false} ExcludedStarts(s: string, w: string, i: nat, ps: seq<(nat, nat)>)
    requires w != [] && i <= |s| && Excluded(s, w, i, ps)
    ensures forall t :: i <= t <= |s| ==> !StartsAt(s, t, w)
    decreases |ps|
  {
    if ps != [] {
      ExcludedStarts(s, w, ps[0].0 + 1, ps[1..]);
    }
    forall t | i <= t <= |s| && t + |w| <= |s|
      ensures !StartsAt(s, t, w)
    {
      if ps == [] {
        assert s[t..t + |w|][0] == s[i..][t - i];
      } else {
        var p := ps[0].0;
        var o := ps[0].1;
        if t < p {
          assert s[t..t + |w|][0] == s[i..p][t - i];
        } else if t == p {
          assert s[t..t + |w|][o] == s[p + o];
        }
      }
    }
  }

  /** `w` does not occur in `s` when every candidate start is excluded. */
  lemma Absent(s: string, w: string, ps: seq<(nat, nat)>)
    requires w != [] && Excluded(s, w, 0, ps)
    ensures !Contains(s, w)
  {
    ExcludedStarts(s, w, 0, ps);
  }

  /** The first index at or after `i` holding `c`, or `|s|` when there is none. */
  function IndexOfFrom(s: string, i: nat, c: char): (r: nat)
    requires i <= |s|
    ensures i <= r <= |s|
    ensures r < |s| ==> s[r] == c
    ensures forall k :: i <= k < r ==> s[k] != c
    decreases |s| - i
  {
    if i == |s| || s[i] == c then i else IndexOfFrom(s, i + 1, c)
  }

  // ---------------------------------------------------------------------------
  // String order
  // ---------------------------------------------------------------------------

  /** The order `sort()` puts strings in: character by character, a proper
      prefix first. */
  predicate Before(a: string, b: string)
    decreases |a|
  {
    b != [] && (a == [] || a[0] < b[0] || (a[0] == b[0] && Before(a[1..], b[1..])))
  }

  lemma {:induction false} BeforeIrreflexive(a: string)
    ensures !Before(a, a)
    decreases |a|
  {
    if a != [] {
      BeforeIrreflexive(a[1..]);
    }
  }

  lemma {:induction false} BeforeTransitive(a: string, b: string, c: string)
    requires Before(a, b) && Before(b, c)
    ensures Before(a, c)
    decreases |a|
  {
    if a != [] && a[0] == b[0] && b[0] == c[0] {
      BeforeTransitive(a[1..], b[1..], c[1..]);
    }
  }

  lemma {:induction false} BeforeTotal(a: string, b: string)
    requires a != b
    ensures Before(a, b) || Before(b, a)
    decreases |a|
  {
    if a != [] && b != [] && a[0] == b[0] {
      BeforeTotal(a[1..], b[1..]);
    }
  }

  /** Strings with fronts of one length compare by the fronts first. */
  lemma {:induction false} BeforeAppend(x: string, y: string, u: string, v: string)
    requires |x| == |u|
    ensures Before(x + y, u + v) <==> Before(x, u) || (x == u && Before(y, v))
    decreases |x|
  {
    if x != [] {
      BeforeAppend(x[1..], y, u[1..], v);
      assert (x + y)[1..] == x[1..] + y && (u + v)[1..] == u[1..] + v;
      if x[0] == u[0] && x[1..] == u[1..] {
        assert x == [x[0]] + x[1..] && u == [u[0]] + u[1..];
      }
    } else {
      assert x + y == y && u + v == v;
    }
  }

  /** On digit strings of one length the order is the numeric order. */
  lemma {:induction false} DigitsBefore(a: string, b: string)
    requires |a| == |b|
    requires forall i :: 0 <= i < |a| ==> IsDigit(a[i])
    requires forall i :: 0 <= i < |b| ==> IsDigit(b[i])
    ensures Before(a, b) <==> DigitsValue(a) < DigitsValue(b)
    ensures a == b <==> DigitsValue(a) == DigitsValue(b)
    decreases |a|
  {
    if a != [] {
      var n := |a| - 1;
      var ai, bi := a[..n], b[..n];
      DigitsBefore(ai, bi);
      assert a == ai + [a[n]] && b == bi + [b[n]];
      BeforeAppend(ai, [a[n]], bi, [b[n]]);
      if !Before(ai, bi) && ai != bi {
        BeforeTotal(ai, bi);
      }
    }
  }

  /** `a` is `b` with some elements dropped, the rest in order. */
  predicate IsSubsequence<T(==)>(a: seq<T>, b: seq<T>)
    decreases |b|
  {
    a == [] || (b != [] && (
      (a[|a| - 1] == b[|b| - 1] && IsSubsequence(a[..|a| - 1], b[..|b| - 1]))
      || IsSubsequence(a, b[..|b| - 1])))
  }

  // ---------------------------------------------------------------------------
  // Array.prototype.filter and Array.prototype.find
  // ---------------------------------------------------------------------------

  /** `xs.filter(keep)`: the elements `keep` picks, in order. */
  function Filter<T>(xs: seq<T>, keep: T -> bool): (r: seq<T>)
    ensures |r| <= |xs|
  {
    if xs == [] then []
    else
      var init, last := xs[..|xs| - 1], xs[|xs| - 1];
      Filter(init, keep) + (if keep(last) then [last] else [])
  }

  /** An element is picked exactly when it is in the list and `keep` holds. */
  lemma {:induction false} FilterMember<T>(xs: seq<T>, keep: T -> bool, x: T)
    ensures x in Filter(xs, keep) <==> x in xs && keep(x)
  {
    if xs != [] {
      var init, last := xs[..|xs| - 1], xs[|xs| - 1];
      assert xs == init + [last];
      FilterMember(init, keep, x);
    }
  }

  /** One more element considered. */
  lemma FilterStep<T>(xs: seq<T>, i: nat, keep: T -> bool)
    requires i < |xs|
    ensures Filter(xs[..i + 1], keep) == Filter(xs[..i], keep) + (if keep(xs[i]) then [xs[i]] else [])
  {
    assert xs[..i + 1][..i] == xs[..i];
  }

  /** Picking nothing gives nothing. */
  lemma {:induction false} NonePicked<T>(xs: seq<T>, keep: T -> bool)
    requires forall i :: 0 <= i < |xs| ==> !keep(xs[i])
    ensures Filter(xs, keep) == []
  {
    if xs != [] {
      NonePicked(xs[..|xs| - 1], keep);
    }
  }

  /** Picking everything gives everything. */
  lemma {:induction false} AllPicked<T>(xs: seq<T>, keep: T -> bool)
    requires forall i :: 0 <= i < |xs| ==> keep(xs[i])
    ensures Filter(xs, keep) == xs
  {
    if xs != [] {
      AllPicked(xs[..|xs| - 1], keep);
      assert xs == xs[..|xs| - 1] + [xs[|xs| - 1]];
    }
  }

  /** When `keep` picks exactly the first `n` elements, the filter is that
      prefix. */
  lemma {:induction false} FilterPrefix<T>(xs: seq<T>, keep: T -> bool, n: nat)
    requires n <= |xs|
    requires forall i :: 0 <= i < n ==> keep(xs[i])
    requires forall i :: n <= i < |xs| ==> !keep(xs[i])
    ensures Filter(xs, keep) == xs[..n]
    decreases |xs|
  {
    if |xs| == n {
      AllPicked(xs, keep);
      assert xs[..n] == xs;
    } else {
      var init := xs[..|xs| - 1];
      FilterPrefix(init, keep, n);
      assert init[..n] == xs[..n];
    }
  }

  /** Filtering a concatenation filters each part. */
  lemma {:induction false} FilterAppend<T>(xs: seq<T>, ys: seq<T>, keep: T -> bool)
    ensures Filter(xs + ys, keep) == Filter(xs, keep) + Filter(ys, keep)
    decreases |ys|
  {
    if ys != [] {
      var init, last := ys[..|ys| - 1], ys[|ys| - 1];
      assert (xs + ys)[..|xs + ys| - 1] == xs + init;
      assert (xs + ys)[|xs + ys| - 1] == last;
      FilterAppend(xs, init, keep);
      var tail := if keep(last) then [last] else [];
      assert Filter(xs + ys, keep) == Filter(xs + init, keep) + tail;
      assert Filter(ys, keep) == Filter(init, keep) + tail;
    } else {
      assert xs + ys == xs;
    }
  }

  /** Filtering from the front: the head is picked or not, then the rest. */
  lemma FilterCons<T>(xs: seq<T>, keep: T -> bool)
    requires xs != []
    ensures Filter(xs, keep) == (if keep(xs[0]) then [xs[0]] else []) + Filter(xs[1..], keep)
  {
    FilterAppend(xs[..1], xs[1..], keep);
    assert xs[..1] + xs[1..] == xs;
    assert xs[..1][..0] == [];
  }

  /** What is picked keeps its order. */
  lemma {:induction false} FilterInOrder<T>(xs: seq<T>, keep: T -> bool)
    ensures IsSubsequence(Filter(xs, keep), xs)
  {
    if xs != [] {
      var init, last := xs[..|xs| - 1], xs[|xs| - 1];
      FilterInOrder(init, keep);
      var r := Filter(xs, keep);
      if keep(last) {
        assert r == Filter(init, keep) + [last];
        assert r[..|r| - 1] == Filter(init, keep);
      } else {
        assert r == Filter(init, keep);
      }
    }
  }

  /** A filter and its complement split the list: together they hold
      every element once. */
  lemma {:induction false} FilterSplit<T>(xs: seq<T>, keep: T -> bool, drop: T -> bool)
    requires forall x :: drop(x) == !keep(x)
    ensures |Filter(xs, keep)| + |Filter(xs, drop)| == |xs|
  {
    if xs != [] {
      FilterSplit(xs[..|xs| - 1], keep, drop);
    }
  }

  /** `xs.find(hit)`: the first element `hit` picks, if any. */
  function Find<T>(xs: seq<T>, hit: T -> bool): (r: Option<T>)
    ensures r.Some? ==> r.value in xs && hit(r.value)
  {
    if xs == [] then None
    else if hit(xs[0]) then Some(xs[0])
    else Find(xs[1..], hit)
  }

  /** `find` gives the element at the first position `hit` picks. */
  lemma {:induction false} FindFirst<T>(xs: seq<T>, hit: T -> bool, i: nat)
    requires i < |xs| && hit(xs[i])
    requires forall j :: 0 <= j < i ==> !hit(xs[j])
    ensures Find(xs, hit) == Some(xs[i])
  {
    if i > 0 {
      FindFirst(xs[1..], hit, i - 1);
    }
  }

  /** `find` gives nothing exactly when nothing is picked. */
  lemma {:induction false} FindNone<T>(xs: seq<T>, hit: T -> bool)
    ensures Find(xs, hit) == None <==> forall j :: 0 <= j < |xs| ==> !hit(xs[j])
  {
    if xs != [] {
      FindNone(xs[1..], hit);
      if !hit(xs[0]) {
        assert forall j :: 1 <= j < |xs| ==> xs[j] == xs[1..][j - 1];
      }
    }
  }

  // ---------------------------------------------------------------------------
  // Trimming and splitting
  // ---------------------------------------------------------------------------

  /** True when every character of `s` is JavaScript whitespace. */
  predicate IsBlank(s: string)
  {
    forall i :: 0 <= i < |s| ==> IsJsSpace(s[i])
  }

  /** The first index at or after `i` that is not JavaScript whitespace. */
  function SkipSpace(s: string, i: nat): (r: nat)
    requires i <= |s|
    ensures i <= r <= |s| && (r < |s| ==> !IsJsSpace(s[r]))
    ensures forall k :: i <= k < r ==> IsJsSpace(s[k])
    decreases |s| - i
  {
    if i < |s| && IsJsSpace(s[i]) then SkipSpace(s, i + 1) else i
  }

  /** The end of `s[..j]` once its trailing JavaScript whitespace is dropped. */
  function BackSpace(s: string, j: nat): (r: nat)
    requires j <= |s|
    ensures r <= j && (r > 0 ==> !IsJsSpace(s[r - 1]))
    ensures forall k :: r <= k < j ==> IsJsSpace(s[k])
  {
    if j > 0 && IsJsSpace(s[j - 1]) then BackSpace(s, j - 1) else j
  }

  /** `String.prototype.trim`: drops leading and trailing JavaScript whitespace. */
  function Trim(s: string): (r: string)
    ensures |r| <= |s|
    ensures r == [] || (!IsJsSpace(r[0]) && !IsJsSpace(r[|r| - 1]))
    ensures r == [] <==> IsBlank(s)
    ensures StartsAt(s, SkipSpace(s, 0), r)
    ensures forall k :: 0 <= k < SkipSpace(s, 0) ==> IsJsSpace(s[k])
    ensures forall k :: SkipSpace(s, 0) + |r| <= k < |s| ==> IsJsSpace(s[k])
  {
    var lo := SkipSpace(s, 0);
    var hi := BackSpace(s, |s|);
    if hi <= lo then
      assert lo < |s| ==> hi > lo;
      []
    else
      s[lo..hi]
  }

  /** `s.split(sep)` for a single-character separator. */
  function SplitOn(s: string, sep: char): (r: seq<string>)
    ensures |r| >= 1
    ensures forall k :: 0 <= k < |r| ==> sep !in r[k]
    decreases |s|
  {
    var i := IndexOfFrom(s, 0, sep);
    if i == |s| then [s]
    else
      assert sep !in s[..i];
      [s[..i]] + SplitOn(s[i + 1..], sep)
  }

  /** Trimming text that neither starts nor ends with whitespace changes nothing. */
  lemma TrimFixed(s: string)
    requires s == [] || (!IsJsSpace(s[0]) && !IsJsSpace(s[|s| - 1]))
    ensures Trim(s) == s
  {
    if s != [] {
      assert SkipSpace(s, 0) == 0;
      assert BackSpace(s, |s|) == |s|;
    }
  }

  /** The first non-space position at or after `i` is the one found by
      scanning: spaces up to `m`, and no space at `m`. */
  lemma {:induction false} SkipSpaceAt(s: string, i: nat, m: nat)
    requires i <= m <= |s|
    requires forall k :: i <= k < m ==> IsJsSpace(s[k])
    requires m < |s| ==> !IsJsSpace(s[m])
    ensures SkipSpace(s, i) == m
    decreases m - i
  {
    if i < m {
      SkipSpaceAt(s, i + 1, m);
    }
  }

  /** The same, scanning backwards from `j` down to `m`. */
  lemma {:induction false} BackSpaceAt(s: string, j: nat, m: nat)
    requires m <= j <= |s|
    requires forall k :: m <= k < j ==> IsJsSpace(s[k])
    requires m > 0 ==> !IsJsSpace(s[m - 1])
    ensures BackSpace(s, j) == m
    decreases j - m
  {
    if m < j {
      BackSpaceAt(s, j - 1, m);
    }
  }

  lemma BlankPadded(w1: string, s: string, w2: string)
    requires IsBlank(w1) && IsBlank(s) && IsBlank(w2)
    ensures IsBlank(w1 + s + w2)
  {
    var x := w1 + s + w2;
    forall k | 0 <= k < |x|
      ensures IsJsSpace(x[k])
    {
      if k < |w1| {
        assert x[k] == w1[k];
      } else if k < |w1| + |s| {
        assert x[k] == s[k - |w1|];
      } else {
        assert x[k] == w2[k - |w1| - |s|];
      }
    }
  }

  /** Where the trimmed part of a padded text lies. */
  lemma PaddedBounds(w1: string, s: string, w2: string)
    requires IsBlank(w1) && IsBlank(w2) && !IsBlank(s)
    ensures SkipSpace(w1 + s + w2, 0) == |w1| + SkipSpace(s, 0)
    ensures BackSpace(w1 + s + w2, |w1 + s + w2|) == |w1| + BackSpace(s, |s|)
  {
    var x := w1 + s + w2;
    var lo := SkipSpace(s, 0);
    var hi := BackSpace(s, |s|);
    assert lo < |s| && hi > 0;
    assert forall k :: 0 <= k < |w1| ==> x[k] == w1[k];
    assert forall k :: 0 <= k < |s| ==> x[|w1| + k] == s[k];
    assert forall k :: |w1| + |s| <= k < |x| ==> x[k] == w2[k - |w1| - |s|];
    SkipSpaceAt(x, 0, |w1| + lo);
    BackSpaceAt(x, |x|, |w1| + hi);
  }

  /** `trim` keeps the slice between the two scans. */
  lemma TrimBetween(s: string, lo: nat, hi: nat)
    requires lo == SkipSpace(s, 0) && hi == BackSpace(s, |s|) && lo < hi
    ensures Trim(s) == s[lo..hi]
  {
  }

  /** The padded text is the text itself, shifted by the left padding. */
  lemma PaddedSlice(w1: string, s: string, w2: string, lo: nat, hi: nat)
    requires lo <= hi <= |s|
    ensures (w1 + s + w2)[|w1| + lo..|w1| + hi] == s[lo..hi]
  {
    var x := w1 + s + w2;
    assert forall k :: 0 <= k < |s| ==> x[|w1| + k] == s[k];
  }

  /** Whitespace added at either end is dropped again by `trim`. */
  lemma TrimPadding(w1: string, s: string, w2: string)
    requires IsBlank(w1) && IsBlank(w2)
    ensures Trim(w1 + s + w2) == Trim(s)
  {
    if IsBlank(s) {
      BlankPadded(w1, s, w2);
    } else {
      PaddedBounds(w1, s, w2);
      var lo := SkipSpace(s, 0);
      var hi := BackSpace(s, |s|);
      assert lo < |s| && hi > lo;
      TrimBetween(s, lo, hi);
      TrimBetween(w1 + s + w2, |w1| + lo, |w1| + hi);
      PaddedSlice(w1, s, w2, lo, hi);
    }
  }

  /** `parts.join(sep)`. */
  function Join(parts: seq<string>, sep: string): string
  {
    if |parts| == 0 then ""
    else if |parts| == 1 then parts[0]
    else parts[0] + sep + Join(parts[1..], sep)
  }

  /** Splitting at `sep` undoes joining with `sep` followed by `pad`, up to
      the padding left at the head of every part but the first. */
  lemma {:induction false} SplitJoin(parts: seq<string>, sep: char, pad: string)
    requires |parts| >= 1
    requires sep !in pad && forall k :: 0 <= k < |parts| ==> sep !in parts[k]
    ensures SplitOn(Join(parts, [sep] + pad), sep) == [parts[0]] + Padded(pad, parts[1..])
    decreases |parts|, 0
  {
    var s := Join(parts, [sep] + pad);
    if |parts| == 1 {
      assert IndexOfFrom(s, 0, sep) == |s|;
    } else {
      var p := parts[0];
      var rest := Join(parts[1..], [sep] + pad);
      var tail := [pad + parts[1]] + parts[2..];
      assert s == p + [sep] + (pad + rest);
      var i := IndexOfFrom(s, 0, sep);
      assert i == |p| by {
        assert s[|p|] == sep;
      }
      assert s[..i] == p;
      assert s[i + 1..] == pad + rest;
      PaddedJoin(parts[1..], sep, pad);
    }
  }

  /** `pad` put in front of every part. */
  function Padded(pad: string, parts: seq<string>): (r: seq<string>)
    ensures |r| == |parts|
    ensures forall k :: 0 <= k < |parts| ==> r[k] == pad + parts[k]
  {
    if parts == [] then [] else [pad + parts[0]] + Padded(pad, parts[1..])
  }

  lemma {:induction false} PaddedJoin(parts: seq<string>, sep: char, pad: string)
    requires |parts| >= 1
    requires sep !in pad && forall k :: 0 <= k < |parts| ==> sep !in parts[k]
    ensures SplitOn(pad + Join(parts, [sep] + pad), sep) == Padded(pad, parts)
    decreases |parts|, 1
  {
    var q := [pad + parts[0]] + parts[1..];
    JoinHead(parts, [sep] + pad, pad);
    assert sep !in q[0];
    SplitJoin(q, sep, pad);
    assert q[1..] == parts[1..];
    assert Padded(pad, parts) == [q[0]] + Padded(pad, parts[1..]);
  }

  lemma JoinHead(parts: seq<string>, sep: string, pad: string)
    requires |parts| >= 1
    ensures pad + Join(parts, sep) == Join([pad + parts[0]] + parts[1..], sep)
  {
    var q := [pad + parts[0]] + parts[1..];
    assert q[1..] == parts[1..];
  }

  // ---------------------------------------------------------------------------
  // Numbers as text
  // ---------------------------------------------------------------------------

  function DigitChar(d: nat): (c: char)
    requires d < 10
    ensures IsDigit(c)
  {
    ('0' as int + d) as char
  }

  /** Decimal text of a natural number, as `${n}` prints it. */
  function NatToString(n: nat): (r: string)
    ensures |r| >= 1
    ensures forall i :: 0 <= i < |r| ==> IsDigit(r[i])
    ensures r[0] == '0' ==> n == 0
  {
    if n < 10 then [DigitChar(n)]
    else NatToString(n / 10) + [DigitChar(n % 10)]
  }

  /** Decimal text of an integer, with a leading `-` when negative. */
  function IntToString(n: int): (r: string)
    ensures |r| >= 1
    ensures n >= 0 ==> r == NatToString(n)
    ensures n < 0 ==> r == "-" + NatToString(-n)
  {
    if n >= 0 then NatToString(n) else "-" + NatToString(-n)
  }

  /** Reading back the digits `NatToString` writes. */
  function DigitsValue(s: string): (n: nat)
    requires forall i :: 0 <= i < |s| ==> IsDigit(s[i])
  {
    if s == [] then 0
    else
      var d := s[|s| - 1] as int - '0' as int;
      assert 0 <= d by { assert IsDigit(s[|s| - 1]); }
      10 * DigitsValue(s[..|s| - 1]) + d
  }

  lemma {:induction false} NatToStringRoundTrip(n: nat)
    ensures DigitsValue(NatToString(n)) == n
  {
    if n >= 10 {
      NatToStringRoundTrip(n / 10);
      var s := NatToString(n);
      assert s[..|s| - 1] == NatToString(n / 10);
    }
  }

  /** Distinct numbers print differently. */
  lemma NatToStringInjective(m: nat, n: nat)
    requires NatToString(m) == NatToString(n)
    ensures m == n
  {
    NatToStringRoundTrip(m);
    NatToStringRoundTrip(n);
  }

  /** Distinct integers print differently. */
  lemma IntToStringInjective(m: int, n: int)
    requires IntToString(m) == IntToString(n)
    ensures m == n
  {
    var r := IntToString(m);
    if m >= 0 && n >= 0 {
      NatToStringInjective(m, n);
    } else if m < 0 && n < 0 {
      assert r[1..] == NatToString(-m) == NatToString(-n);
      NatToStringInjective(-m, -n);
    }
  }
}
