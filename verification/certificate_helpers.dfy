/** Helpers of the certificate feature: reading pasted student names,
    checking one name, the download file name, the time estimate, the colour
    check, batching, the font suggested for an event type, and the storage
    path of a generated certificate. */
module CertificateHelpers {
  import opened Text

  // ---------------------------------------------------------------------------
  // Parsing pasted names
  // ---------------------------------------------------------------------------

  /** The characters `/[\n,]/` splits at. */
  predicate IsSeparator(c: char)
  {
    c == '\n' || c == ','
  }

  predicate NoSeparator(s: string)
  {
    forall i :: 0 <= i < |s| ==> !IsSeparator(s[i])
  }

  /** The first separator at or after `i`, or `|s|`. */
  function NextSeparator(s: string, i: nat): (r: nat)
    requires i <= |s|
    ensures i <= r <= |s| && (r < |s| ==> IsSeparator(s[r]))
    ensures forall k :: i <= k < r ==> !IsSeparator(s[k])
    decreases |s| - i
  {
    if i == |s| || IsSeparator(s[i]) then i else NextSeparator(s, i + 1)
  }

  /** `input.split(/[\n,]/)`. */
  function SplitNames(s: string): (r: seq<string>)
    ensures |r| >= 1
    ensures forall k :: 0 <= k < |r| ==> NoSeparator(r[k])
    decreases |s|
  {
    var i := NextSeparator(s, 0);
    if i == |s| then [s]
    else [s[..i]] + SplitNames(s[i + 1..])
  }

  /** `.map((name) => name.trim())`. */
  function TrimAll(ps: seq<string>): (r: seq<string>)
    ensures |r| == |ps|
    ensures forall k :: 0 <= k < |ps| ==> r[k] == Trim(ps[k])
  {
    if ps == [] then [] else [Trim(ps[0])] + TrimAll(ps[1..])
  }

  /** `.filter((name) => name.length > 0)`. */
  function KeepNonEmpty(ps: seq<string>): seq<string>
  {
    if ps == [] then []
    else if ps[0] != [] then [ps[0]] + KeepNonEmpty(ps[1..])
    else KeepNonEmpty(ps[1..])
  }

  /** `/^[,\n\s]+$/`: non-empty and made of commas and whitespace only. */
  predicate OnlySeparators(s: string)
  {
    s != [] && forall i :: 0 <= i < |s| ==> s[i] == ',' || IsJsSpace(s[i])
  }

  /** `.filter((name) => !/^[,\n\s]+$/.test(name))`. */
  function DropSeparatorOnly(ps: seq<string>): seq<string>
  {
    if ps == [] then []
    else if !OnlySeparators(ps[0]) then [ps[0]] + DropSeparatorOnly(ps[1..])
    else DropSeparatorOnly(ps[1..])
  }

  /** `parseStudentNames`. */
  function ParseStudentNames(input: string): (names: seq<string>)
    ensures forall k :: 0 <= k < |names| ==> Clean(names[k])
  {
    TrimmedPiecesClean(input);
    DropIdle(KeepNonEmpty(TrimAll(SplitNames(input))));
    DropSeparatorOnly(KeepNonEmpty(TrimAll(SplitNames(input))))
  }

  /** A name as the parser hands it out: non-empty, trimmed, and without
      commas or line breaks. */
  predicate Clean(n: string)
  {
    n != [] && !IsJsSpace(n[0]) && !IsJsSpace(n[|n| - 1]) && NoSeparator(n)
  }

  predicate AllClean(ps: seq<string>)
  {
    forall k :: 0 <= k < |ps| ==> Clean(ps[k])
  }

  /** Trimming keeps a piece of the text, so it adds no separator. */
  lemma TrimNoSeparator(s: string)
    requires NoSeparator(s)
    ensures NoSeparator(Trim(s))
  {
    var lo := SkipSpace(s, 0);
    var t := Trim(s);
    forall i | 0 <= i < |t|
      ensures !IsSeparator(t[i])
    {
      assert t[i] == s[lo + i];
    }
  }

  /** Trimmed pieces that kept something are clean. */
  lemma {:induction false} KeepNonEmptyClean(ps: seq<string>)
    requires forall k :: 0 <= k < |ps| ==> NoSeparator(ps[k]) && (ps[k] == [] || (!IsJsSpace(ps[k][0]) && !IsJsSpace(ps[k][|ps[k]| - 1])))
    ensures AllClean(KeepNonEmpty(ps))
  {
    if ps != [] {
      KeepNonEmptyClean(ps[1..]);
    }
  }

  /** The separator-only filter drops nothing from clean names: each starts
      with a character that is neither a comma nor whitespace. */
  lemma {:induction false} DropIdle(ps: seq<string>)
    requires AllClean(ps)
    ensures DropSeparatorOnly(ps) == ps
  {
    if ps != [] {
      assert ps[0][0] != ',' by { assert !IsSeparator(ps[0][0]); }
      assert !OnlySeparators(ps[0]);
      DropIdle(ps[1..]);
    }
  }

  /** Before the last filter, every name is already clean. */
  lemma TrimmedPiecesClean(input: string)
    ensures AllClean(KeepNonEmpty(TrimAll(SplitNames(input))))
  {
    var parts := SplitNames(input);
    var ts := TrimAll(parts);
    forall k | 0 <= k < |ts|
      ensures NoSeparator(ts[k])
    {
      TrimNoSeparator(parts[k]);
    }
    KeepNonEmptyClean(ts);
  }

  /** Every parsed name is clean, and the separator-only filter never
      removes anything. */
  lemma ParsedNamesClean(input: string)
    ensures AllClean(ParseStudentNames(input))
    ensures ParseStudentNames(input) == KeepNonEmpty(TrimAll(SplitNames(input)))
  {
    TrimmedPiecesClean(input);
    DropIdle(KeepNonEmpty(TrimAll(SplitNames(input))));
  }

  /** Splitting at separators undoes joining with a separator followed by
      `pad`, up to the padding. */
  lemma {:induction false} SplitNamesJoin(ps: seq<string>, sep: char, pad: string)
    requires |ps| >= 1 && IsSeparator(sep) && NoSeparator(pad)
    requires forall k :: 0 <= k < |ps| ==> NoSeparator(ps[k])
    ensures SplitNames(Join(ps, [sep] + pad)) == [ps[0]] + Padded(pad, ps[1..])
    decreases |ps|, 0
  {
    var s := Join(ps, [sep] + pad);
    if |ps| == 1 {
      assert NextSeparator(s, 0) == |s|;
    } else {
      var p := ps[0];
      var rest := Join(ps[1..], [sep] + pad);
      assert s == p + [sep] + (pad + rest);
      var i := NextSeparator(s, 0);
      assert i == |p| by {
        assert IsSeparator(s[|p|]);
      }
      assert s[..i] == p;
      assert s[i + 1..] == pad + rest;
      PaddedSplitNames(ps[1..], sep, pad);
    }
  }

  lemma {:induction false} PaddedSplitNames(ps: seq<string>, sep: char, pad: string)
    requires |ps| >= 1 && IsSeparator(sep) && NoSeparator(pad)
    requires forall k :: 0 <= k < |ps| ==> NoSeparator(ps[k])
    ensures SplitNames(pad + Join(ps, [sep] + pad)) == Padded(pad, ps)
    decreases |ps|, 1
  {
    var q := [pad + ps[0]] + ps[1..];
    JoinHead(ps, [sep] + pad, pad);
    assert NoSeparator(q[0]);
    SplitNamesJoin(q, sep, pad);
    assert q[1..] == ps[1..];
    assert Padded(pad, ps) == [q[0]] + Padded(pad, ps[1..]);
  }

  lemma PaddedTrim(n: string)
    requires Clean(n)
    ensures Trim(" " + n) == n
  {
    var s := " " + n;
    assert SkipSpace(s, 1) == 1;
    assert SkipSpace(s, 0) == 1;
    assert BackSpace(s, |s|) == |s|;
  }

  lemma {:induction false} KeepNonEmptyIdle(ps: seq<string>)
    requires AllClean(ps)
    ensures KeepNonEmpty(ps) == ps
  {
    if ps != [] {
      KeepNonEmptyIdle(ps[1..]);
    }
  }

  /** Trimming the padded pieces gives the names back. */
  lemma TrimPadded(names: seq<string>)
    requires |names| >= 1 && AllClean(names)
    ensures TrimAll([names[0]] + Padded(" ", names[1..])) == names
  {
    var parts := [names[0]] + Padded(" ", names[1..]);
    forall k | 0 <= k < |names|
      ensures Trim(parts[k]) == names[k]
    {
      if k == 0 {
        TrimFixed(names[0]);
      } else {
        assert parts[k] == " " + names[k];
        PaddedTrim(names[k]);
      }
    }
  }

  /** Splitting a comma-separated list and trimming gives the names back. */
  lemma TrimSplitJoined(names: seq<string>)
    requires |names| >= 1 && AllClean(names)
    ensures TrimAll(SplitNames(Join(names, ", "))) == names
  {
    assert [','] + " " == ", ";
    SplitNamesJoin(names, ',', " ");
    TrimPadded(names);
  }

  /** Names written as a comma-separated list come back as they were, in
      order. */
  lemma ParseJoinedNames(names: seq<string>)
    requires |names| >= 1 && AllClean(names)
    ensures ParseStudentNames(Join(names, ", ")) == names
  {
    TrimSplitJoined(names);
    KeepNonEmptyIdle(names);
    DropIdle(names);
  }

  /** Blank input gives no names. */
  lemma ParseBlank(input: string)
    requires NoSeparator(input) && IsBlank(input)
    ensures ParseStudentNames(input) == []
  {
    assert NextSeparator(input, 0) == |input|;
    assert SplitNames(input) == [input];
    assert Trim(input) == [];
    assert TrimAll([input]) == [[]];
    assert KeepNonEmpty([[]]) == [];
  }

  // ---------------------------------------------------------------------------
  // Checking one name
  // ---------------------------------------------------------------------------

  const EmptyNameMessage := "Name cannot be empty"
  const LongNameMessage := "Name is too long (max 100 characters)"
  const BadCharsMessage := "Name contains invalid characters"

  /** The characters of `/[<>{}[\]\\]/`. */
  predicate IsSuspicious(c: char)
  {
    c == '<' || c == '>' || c == '{' || c == '}' || c == '[' || c == ']' || c == '\\'
  }

  predicate HasSuspicious(s: string)
  {
    exists i :: 0 <= i < |s| && IsSuspicious(s[i])
  }

  datatype NameCheck = Accepted | Refused(error: string)

  /** `validateStudentName`: blank, then over 100 characters (before
      trimming), then a suspicious character; the first failing check
      decides the message. */
  function ValidateStudentName(name: string): (r: NameCheck)
    ensures r == Accepted <==> !IsBlank(name) && |name| <= 100 && !HasSuspicious(name)
    ensures r == Refused(EmptyNameMessage) <==> IsBlank(name)
    ensures r == Refused(LongNameMessage) <==> !IsBlank(name) && |name| > 100
    ensures r == Refused(BadCharsMessage) <==> !IsBlank(name) && |name| <= 100 && HasSuspicious(name)
  {
    if name == [] || |Trim(name)| == 0 then Refused(EmptyNameMessage)
    else if |name| > 100 then Refused(LongNameMessage)
    else if HasSuspicious(name) then Refused(BadCharsMessage)
    else Accepted
  }

  /** No name the parser returns is refused as empty. */
  lemma ParsedNamesNotEmpty(input: string, k: nat)
    requires k < |ParseStudentNames(input)|
    ensures ValidateStudentName(ParseStudentNames(input)[k]) != Refused(EmptyNameMessage)
  {
    ParsedNamesClean(input);
    var n := ParseStudentNames(input)[k];
    assert !IsJsSpace(n[0]);
  }

  // ---------------------------------------------------------------------------
  // File name, storage path, time estimate
  // ---------------------------------------------------------------------------

  const CertificateSuffix := "_Certificate.pdf"

  /** `replace(/[^a-zA-Z0-9]/g, "_")`. */
  function Sanitize(s: string): (r: string)
    ensures |r| == |s|
    ensures forall i :: 0 <= i < |s| ==> r[i] == if IsAlnum(s[i]) then s[i] else '_'
  {
    if s == [] then [] else [if IsAlnum(s[0]) then s[0] else '_'] + Sanitize(s[1..])
  }

  /** Sanitising twice is sanitising once. */
  lemma SanitizeIdempotent(s: string)
    ensures Sanitize(Sanitize(s)) == Sanitize(s)
  {
  }

  /** `generateCertificateFilename`: letters and digits kept in place, every
      other character an underscore, then the fixed suffix. */
  function CertificateFilename(studentName: string): (r: string)
    ensures |r| == |studentName| + 16
    ensures r[|studentName|..] == CertificateSuffix
    ensures forall i :: 0 <= i < |studentName| ==> (IsAlnum(studentName[i]) ==> r[i] == studentName[i]) && (!IsAlnum(studentName[i]) ==> r[i] == '_')
  {
    Sanitize(studentName) + CertificateSuffix
  }

  /** Every character of a certificate file name is a letter, a digit, `_`
      or `.`, so it holds no `/`. */
  lemma FilenameSafe(studentName: string)
    ensures forall i :: 0 <= i < |CertificateFilename(studentName)| ==>
      var c := CertificateFilename(studentName)[i];
      IsAlnum(c) || c == '_' || c == '.'
  {
    var r := CertificateFilename(studentName);
    forall i | |studentName| <= i < |r|
      ensures IsAlnum(r[i]) || r[i] == '_' || r[i] == '.'
    {
      assert r[i] == CertificateSuffix[i - |studentName|];
    }
  }

  /** `getCertificateStoragePath`. */
  function StoragePath(eventId: string, filename: string): string
  {
    "certificates/" + eventId + "/" + filename
  }

  /** For an event id and file name without `/`, the path has exactly three
      segments: the folder, the event and the file. */
  lemma StoragePathSegments(eventId: string, filename: string)
    requires '/' !in eventId && '/' !in filename
    ensures SplitOn(StoragePath(eventId, filename), '/') == ["certificates", eventId, filename]
  {
    var ps := ["certificates", eventId, filename];
    assert '/' !in "certificates";
    assert Join(ps, "/") == StoragePath(eventId, filename) by {
      assert Join(ps[1..], "/") == eventId + "/" + filename by {
        assert ps[1..][1..] == [filename];
      }
    }
    assert "/" == ['/'] + "";
    SplitJoin(ps, '/', "");
    var xs := ps[1..];
    assert forall k :: 0 <= k < |xs| ==> "" + xs[k] == xs[k];
    assert Padded("", xs) == xs;
  }

  /** `Math.ceil`. */
  function Ceil(x: real): int
  {
    -((-x).Floor)
  }

  /** `estimateGenerationTime` for a whole number of certificates: 1.5
      seconds each, shown in seconds below a minute and in whole minutes,
      rounded up, from a minute on. */
  function EstimateGenerationTime(numCertificates: int): string
  {
    var totalSeconds := numCertificates as real * 1.5;
    if totalSeconds < 60.0 then "~" + IntToString(Ceil(totalSeconds)) + " seconds"
    else
      var minutes := Ceil(totalSeconds / 60.0);
      "~" + IntToString(minutes) + " minute" + (if minutes > 1 then "s" else "")
  }

  lemma CeilHalves(n: int)
    ensures Ceil(n as real * 1.5) == (3 * n + 1) / 2
  {
    var q := (3 * n + 1) / 2;
    assert 2 * q <= 3 * n + 1 < 2 * q + 2;
    assert (-(n as real * 1.5)).Floor == -q;
  }

  lemma CeilFortieths(n: int)
    ensures Ceil(n as real * 1.5 / 60.0) == (n + 39) / 40
  {
    var q := (n + 39) / 40;
    assert 40 * q <= n + 39 < 40 * q + 40;
    assert (-(n as real * 1.5 / 60.0)).Floor == -q;
  }

  /** Under 40 certificates the estimate is in seconds, half again the
      count, rounded up; from 40 on it is in minutes, one per 40 rounded up,
      and plural exactly above 40. */
  lemma EstimateInWholeNumbers(n: int)
    ensures n < 40 ==> EstimateGenerationTime(n) == "~" + IntToString((3 * n + 1) / 2) + " seconds"
    ensures n >= 40 ==> EstimateGenerationTime(n) == "~" + IntToString((n + 39) / 40) + " minute" + (if n > 40 then "s" else "")
  {
    CeilHalves(n);
    CeilFortieths(n);
    assert n < 40 <==> n as real * 1.5 < 60.0;
  }

  // ---------------------------------------------------------------------------
  // Colour, batching, fonts
  // ---------------------------------------------------------------------------

  /** `validateHexColor`: `/^#[0-9A-F]{6}$/i`. */
  predicate IsHexColor(hex: string)
  {
    |hex| == 7 && hex[0] == '#' && forall i :: 1 <= i < 7 ==> IsHexDigit(hex[i])
  }

  /** The `i` flag: letter case never changes the verdict. */
  lemma HexColorIgnoresCase(hex: string)
    ensures IsHexColor(Upper(hex)) == IsHexColor(hex)
    ensures IsHexColor(Lower(hex)) == IsHexColor(hex)
  {
    forall i | 0 <= i < |hex|
      ensures IsHexDigit(Upper(hex)[i]) <==> IsHexDigit(hex[i])
      ensures IsHexDigit(Lower(hex)[i]) <==> IsHexDigit(hex[i])
    {
    }
  }

  /** `batchArray`'s result, one slice of `batchSize` at a time. */
  function Batches<T>(a: seq<T>, batchSize: nat): seq<seq<T>>
    requires batchSize > 0
    decreases |a|
  {
    if a == [] then []
    else if |a| <= batchSize then [a]
    else [a[..batchSize]] + Batches(a[batchSize..], batchSize)
  }

  /** The batches laid end to end. */
  function Flatten<T>(bs: seq<seq<T>>): seq<T>
  {
    if bs == [] then [] else bs[0] + Flatten(bs[1..])
  }

  /** `batchArray(array, batchSize)` on `items`. A zero size never advances
      the loop over a non-empty array, so the source returns only when the
      size is positive or there is nothing to batch. */
  method BatchArray<T>(items: seq<T>, batchSize: nat) returns (batches: seq<seq<T>>)
    requires batchSize > 0 || items == []
    ensures items == [] ==> batches == []
    ensures batchSize > 0 ==> batches == Batches(items, batchSize)
  {
    batches := [];
    var i := 0;
    while i < |items|
      invariant i <= |items| || (|items| > 0 && i < |items| + batchSize)
      invariant items == [] ==> batches == []
      invariant batchSize > 0 ==> batches + Batches(Rest(items, i), batchSize) == Batches(items, batchSize)
      decreases |items| - i
    {
      var end := if i + batchSize < |items| then i + batchSize else |items|;
      RestStep(items, i, batchSize);
      batches := batches + [items[i..end]];
      i := i + batchSize;
    }
  }

  /** What is left to batch once `i` elements are done. */
  function Rest<T>(items: seq<T>, i: nat): seq<T>
  {
    if i < |items| then items[i..] else []
  }

  /** One turn of the loop: the slice at `i`, then what is left after it. */
  lemma RestStep<T>(items: seq<T>, i: nat, batchSize: nat)
    requires batchSize > 0 && i < |items|
    ensures var end := if i + batchSize < |items| then i + batchSize else |items|;
      Batches(Rest(items, i), batchSize) == [items[i..end]] + Batches(Rest(items, i + batchSize), batchSize)
  {
    var a := items[i..];
    var end := if i + batchSize < |items| then i + batchSize else |items|;
    if |a| <= batchSize {
      assert a == items[i..end];
    } else {
      assert a[..batchSize] == items[i..end];
      assert a[batchSize..] == items[i + batchSize..];
    }
  }

  /** The batches concatenate back to the input. */
  lemma {:induction false} BatchesFlatten<T>(a: seq<T>, batchSize: nat)
    requires batchSize > 0
    ensures Flatten(Batches(a, batchSize)) == a
    decreases |a|
  {
    if a != [] && |a| > batchSize {
      BatchesFlatten(a[batchSize..], batchSize);
      assert a[..batchSize] + a[batchSize..] == a;
    }
  }

  /** There are ⌈|a| / batchSize⌉ batches: just enough to hold `a`, and
      fewer would not. */
  lemma {:induction false} BatchesCount<T>(a: seq<T>, batchSize: nat)
    requires batchSize > 0
    ensures var n := |Batches(a, batchSize)|;
      |a| <= batchSize * n < |a| + batchSize
    decreases |a|
  {
    if a != [] && |a| > batchSize {
      var rest := a[batchSize..];
      BatchesCount(rest, batchSize);
      var m := |Batches(rest, batchSize)|;
      assert |Batches(a, batchSize)| == m + 1;
      assert batchSize * (m + 1) == batchSize * m + batchSize;
    }
  }

  /** Every batch but the last has exactly `batchSize` elements; the last
      is non-empty and at most that long. */
  lemma {:induction false} BatchesSizes<T>(a: seq<T>, batchSize: nat)
    requires batchSize > 0
    ensures var bs := Batches(a, batchSize);
      && (forall k :: 0 <= k < |bs| - 1 ==> |bs[k]| == batchSize)
      && (bs != [] ==> 0 < |bs[|bs| - 1]| <= batchSize)
    decreases |a|
  {
    if a != [] && |a| > batchSize {
      var rest := a[batchSize..];
      BatchesSizes(rest, batchSize);
      var bs := Batches(a, batchSize);
      assert bs == [a[..batchSize]] + Batches(rest, batchSize);
      assert Batches(rest, batchSize) != [];
    }
  }

  const DefaultFont := "Playfair Display"

  /** The `fontMap` of `getRecommendedFontForEventType`. */
  const FontForType: map<string, string> := map[
    "academic" := "Playfair Display",
    "formal" := "Libre Baskerville",
    "tech" := "Inter",
    "hackathon" := "Space Grotesk",
    "cultural" := "Montserrat",
    "sports" := "Bebas Neue",
    "workshop" := "Poppins",
    "conference" := "Crimson Text",
    "volunteer" := "Lora"
  ]

  /** The value `fontMap[key]` yields in JavaScript: one of the table's font
      names, or a member the object literal inherits from `Object.prototype`
      (a function, or the prototype itself), which is truthy and not a font. */
  datatype FontChoice = Font(name: string) | Inherited(member: string)

  /** The names `Object.prototype` carries that a lower-cased key can spell;
      its other members (`toString`, `hasOwnProperty`, ...) contain capitals. */
  const InheritedKeys: set<string> := {"constructor", "__proto__"}

  /** `getRecommendedFontForEventType(eventType?)`: the lower-cased type
      looked up, with Playfair Display for a missing or unknown type. A key
      naming an inherited member finds that member, which `||` keeps. */
  function RecommendedFontForEventType(eventType: Option<string>): (r: FontChoice)
    ensures eventType.Some? && Lower(eventType.value) in FontForType ==>
      r == Font(FontForType[Lower(eventType.value)])
    ensures eventType.Some? && Lower(eventType.value) in InheritedKeys ==>
      r == Inherited(Lower(eventType.value))
    ensures eventType.None? || (Lower(eventType.value) !in FontForType && Lower(eventType.value) !in InheritedKeys) ==>
      r == Font(DefaultFont)
    ensures r.Font? ==> r.name in FontForType.Values
  {
    var key := if eventType.Some? then Lower(eventType.value) else "";
    assert FontForType["academic"] == DefaultFont;
    if key in FontForType then Font(FontForType[key])
    else if key in InheritedKeys then Inherited(key)
    else Font(DefaultFont)
  }

  /** "__proto__" reaches `Object.prototype` instead of a font. */
  lemma ProtoIsInherited()
    ensures RecommendedFontForEventType(Some("__proto__")) == Inherited("__proto__")
  {
    assert Lower("__proto__") == "__proto__";
  }

  lemma LowerUpper(s: string)
    ensures Lower(Upper(s)) == Lower(s)
  {
    var a := Lower(Upper(s));
    forall i | 0 <= i < |s|
      ensures a[i] == Lower(s)[i]
    {
      assert a[i] == ToLowerChar(ToUpperChar(s[i]));
    }
  }

  lemma LowerLower(s: string)
    ensures Lower(Lower(s)) == Lower(s)
  {
    var a := Lower(Lower(s));
    forall i | 0 <= i < |s|
      ensures a[i] == Lower(s)[i]
    {
      assert a[i] == ToLowerChar(ToLowerChar(s[i]));
    }
  }

  /** The lookup ignores case. */
  lemma FontIgnoresCase(t: string)
    ensures RecommendedFontForEventType(Some(Upper(t))) == RecommendedFontForEventType(Some(t))
    ensures RecommendedFontForEventType(Some(Lower(t))) == RecommendedFontForEventType(Some(t))
  {
    LowerUpper(t);
    LowerLower(t);
  }
}
