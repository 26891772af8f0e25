/** The checks of a certificate template configuration, and the colour
    parser used when the name is drawn. */
module PdfUtils {
  import opened Text
  import CertificateHelpers

  // ---------------------------------------------------------------------------
  // Configuration check
  // ---------------------------------------------------------------------------

  /** A `Partial<CertificateConfig>`: every field may be missing. */
  datatype CertificateConfig = CertificateConfig(
    basePdfUrl: Option<string>,
    studentName: Option<string>,
    nameFont: Option<string>,
    nameFontSize: Option<int>,
    nameColor: Option<string>,
    nameAlign: Option<string>,
    namePosX: Option<int>,
    namePosY: Option<int>)

  /** The checks, in the order they run. */
  datatype Check = BasePdf | StudentName | Font | FontSize | Color | Alignment | Position

  function CheckAt(n: nat): Check
    requires n < 7
  {
    match n
    case 0 => BasePdf
    case 1 => StudentName
    case 2 => Font
    case 3 => FontSize
    case 4 => Color
    case 5 => Alignment
    case _ => Position
  }

  function Message(k: Check): string
  {
    match k
    case BasePdf => "Base PDF URL is required"
    case StudentName => "Student name is required"
    case Font => "Font is required"
    case FontSize => "Font size must be between 12 and 200"
    case Color => "Valid color hex code is required"
    case Alignment => "Valid alignment is required (left, center, right)"
    case Position => "Name position (X, Y) is required"
  }

  /** The alignment as compared, `config.nameAlign || ""`. */
  function AlignOrEmpty(c: CertificateConfig): string
  {
    if Truthy(c.nameAlign) then c.nameAlign.value else ""
  }

  /** The condition under which each check pushes its message. */
  predicate Fails(c: CertificateConfig, k: Check)
  {
    match k
    case BasePdf => !Truthy(c.basePdfUrl)
    case StudentName => !Truthy(c.studentName) || Trim(c.studentName.value) == ""
    case Font => !Truthy(c.nameFont)
    case FontSize => c.nameFontSize.None? || c.nameFontSize.value == 0 || c.nameFontSize.value < 12 || c.nameFontSize.value > 200
    case Color => !Truthy(c.nameColor) || !CertificateHelpers.IsHexColor(c.nameColor.value)
    case Alignment => !(AlignOrEmpty(c) == "left" || AlignOrEmpty(c) == "center" || AlignOrEmpty(c) == "right")
    case Position => c.namePosX.None? || c.namePosY.None?
  }

  /** The messages of the first `n` checks that fail, in check order. */
  function FailedUpTo(c: CertificateConfig, n: nat): seq<string>
    requires n <= 7
  {
    if n == 0 then []
    else FailedUpTo(c, n - 1) + (if Fails(c, CheckAt(n - 1)) then [Message(CheckAt(n - 1))] else [])
  }

  /** The errors `validateCertificateConfig` reports. */
  function ConfigErrors(c: CertificateConfig): seq<string>
  {
    FailedUpTo(c, 7)
  }

  /** `validateCertificateConfig`: each failing check pushes its message, in
      a fixed order; the configuration is valid when nothing was pushed. */
  method ValidateCertificateConfig(c: CertificateConfig) returns (valid: bool, errors: seq<string>)
    ensures errors == ConfigErrors(c)
    ensures valid <==> errors == []
  {
    errors := [];
    errors := Report(c, errors, BasePdf);
    errors := Report(c, errors, StudentName);
    errors := Report(c, errors, Font);
    errors := Report(c, errors, FontSize);
    errors := Report(c, errors, Color);
    errors := Report(c, errors, Alignment);
    errors := Report(c, errors, Position);
    valid := |errors| == 0;
  }

  /** One check of `validateCertificateConfig`, `if (failed) errors.push(message)`:
      run after the checks before it, it adds its own message to theirs. */
  method Report(c: CertificateConfig, errors: seq<string>, k: Check) returns (r: seq<string>)
    requires errors == FailedUpTo(c, Index(k))
    ensures r == FailedUpTo(c, Index(k) + 1)
  {
    r := errors;
    if Fails(c, k) {
      r := r + [Message(k)];
    }
  }

  /** The position of a check in the order. */
  function Index(k: Check): (n: nat)
    ensures n < 7 && CheckAt(n) == k
  {
    match k
    case BasePdf => 0
    case StudentName => 1
    case Font => 2
    case FontSize => 3
    case Color => 4
    case Alignment => 5
    case Position => 6
  }

  /** A configuration the template editor can save: every field present, a
      student name that is not blank, a font size from 12 to 200, a colour
      `#rrggbb`, one of the three alignments. A position of 0 counts as
      present. */
  predicate ConfigOk(c: CertificateConfig)
  {
    && Truthy(c.basePdfUrl)
    && c.studentName.Some? && !IsBlank(c.studentName.value)
    && Truthy(c.nameFont)
    && c.nameFontSize.Some? && 12 <= c.nameFontSize.value <= 200
    && c.nameColor.Some? && CertificateHelpers.IsHexColor(c.nameColor.value)
    && c.nameAlign in {Some("left"), Some("center"), Some("right")}
    && c.namePosX.Some? && c.namePosY.Some?
  }

  /** No messages for the first `n` checks exactly when none of them fails. */
  lemma {:induction false} FailedUpToEmpty(c: CertificateConfig, n: nat)
    requires n <= 7
    ensures FailedUpTo(c, n) == [] <==> forall m :: 0 <= m < n ==> !Fails(c, CheckAt(m))
  {
    if n > 0 {
      FailedUpToEmpty(c, n - 1);
    }
  }

  /** No check fails. */
  predicate AllPass(c: CertificateConfig)
  {
    !Fails(c, BasePdf) && !Fails(c, StudentName) && !Fails(c, Font) && !Fails(c, FontSize)
    && !Fails(c, Color) && !Fails(c, Alignment) && !Fails(c, Position)
  }

  /** The first seven positions are the seven checks. */
  lemma NoneFailsIffAllPass(c: CertificateConfig)
    ensures (forall m :: 0 <= m < 7 ==> !Fails(c, CheckAt(m))) <==> AllPass(c)
  {
    assert CheckAt(0) == BasePdf && CheckAt(1) == StudentName && CheckAt(2) == Font && CheckAt(3) == FontSize;
    assert CheckAt(4) == Color && CheckAt(5) == Alignment && CheckAt(6) == Position;
  }

  /** Passing every check is being savable. */
  lemma AllPassIffOk(c: CertificateConfig)
    ensures AllPass(c) <==> ConfigOk(c)
  {
    if c.studentName.Some? {
      assert Trim(c.studentName.value) == [] <==> IsBlank(c.studentName.value);
    }
  }

  /** The configuration is valid exactly when it can be saved. */
  lemma ConfigValidIff(c: CertificateConfig)
    ensures ConfigErrors(c) == [] <==> ConfigOk(c)
  {
    FailedUpToEmpty(c, 7);
    NoneFailsIffAllPass(c);
    AllPassIffOk(c);
  }

  /** Each check has its own message. */
  lemma MessagesDistinct(k: Check, l: Check)
    requires Message(k) == Message(l)
    ensures k == l
  {
  }

  /** A check's message is reported exactly when that check fails. */
  lemma {:induction false} ReportedIffFails(c: CertificateConfig, n: nat, k: Check)
    requires n <= 7
    ensures Message(k) in FailedUpTo(c, n) <==> exists m :: 0 <= m < n && CheckAt(m) == k && Fails(c, k)
  {
    if n > 0 {
      ReportedIffFails(c, n - 1, k);
      if Message(k) == Message(CheckAt(n - 1)) {
        MessagesDistinct(k, CheckAt(n - 1));
      }
    }
  }

  /** The validator reports a check's message exactly when the check fails. */
  lemma MessageIffFails(c: CertificateConfig, k: Check)
    ensures Message(k) in ConfigErrors(c) <==> Fails(c, k)
  {
    ReportedIffFails(c, 7, k);
    if Fails(c, k) {
      var m := Index(k);
      assert 0 <= m < 7 && CheckAt(m) == k && Fails(c, k);
    }
  }

  // ---------------------------------------------------------------------------
  // Colour parsing
  // ---------------------------------------------------------------------------

  /** A colour as three channel values; the division by 255 that follows in
      the source is left out. */
  datatype Rgb = Rgb(r: int, g: int, b: int)

  function HexValue(c: char): (v: nat)
    requires IsHexDigit(c)
    ensures v < 16
  {
    if IsDigit(c) then c as int - '0' as int
    else if 'a' <= c <= 'f' then c as int - 'a' as int + 10
    else c as int - 'A' as int + 10
  }

  /** `parseInt(pair, 16)` on two hex digits. */
  function PairValue(hi: char, lo: char): (v: nat)
    requires IsHexDigit(hi) && IsHexDigit(lo)
    ensures v < 256
  {
    16 * HexValue(hi) + HexValue(lo)
  }

  predicate SixHex(s: string)
  {
    |s| == 6 && forall i :: 0 <= i < 6 ==> IsHexDigit(s[i])
  }

  /** `hexToRgb`: `/^#?([a-f\d]{2})([a-f\d]{2})([a-f\d]{2})$/i`; black when
      the text does not match. */
  function HexToRgb(hex: string): (c: Rgb)
    ensures IsChannel(c.r) && IsChannel(c.g) && IsChannel(c.b)
  {
    var digits := if |hex| > 0 && hex[0] == '#' then hex[1..] else hex;
    if SixHex(digits) then
      Rgb(PairValue(digits[0], digits[1]), PairValue(digits[2], digits[3]), PairValue(digits[4], digits[5]))
    else Rgb(0, 0, 0)
  }

  /** The lower-case hex digit of a value below 16. */
  function HexDigit(v: nat): (c: char)
    requires v < 16
    ensures IsHexDigit(c) && HexValue(c) == v
  {
    if v < 10 then ('0' as int + v) as char else ('a' as int + v - 10) as char
  }

  /** Two hex digits for a channel value. */
  function ChannelHex(v: nat): (s: string)
    requires v < 256
    ensures |s| == 2 && IsHexDigit(s[0]) && IsHexDigit(s[1]) && PairValue(s[0], s[1]) == v
  {
    [HexDigit(v / 16), HexDigit(v % 16)]
  }

  predicate IsChannel(v: int)
  {
    0 <= v < 256
  }

  /** `#rrggbb` for a colour whose channels are bytes. */
  function RgbToHex(c: Rgb): (s: string)
    requires IsChannel(c.r) && IsChannel(c.g) && IsChannel(c.b)
    ensures CertificateHelpers.IsHexColor(s)
  {
    "#" + ChannelHex(c.r) + ChannelHex(c.g) + ChannelHex(c.b)
  }

  /** Parsing a written colour gives the colour back. */
  lemma HexRoundTrip(c: Rgb)
    requires IsChannel(c.r) && IsChannel(c.g) && IsChannel(c.b)
    ensures HexToRgb(RgbToHex(c)) == c
  {
    var s := RgbToHex(c);
    assert s[1..] == ChannelHex(c.r) + ChannelHex(c.g) + ChannelHex(c.b);
  }

  /** Every colour the configuration check accepts parses to its three hex
      byte pairs; it comes out black only when it is `#000000`. */
  lemma ValidColourParses(hex: string)
    requires CertificateHelpers.IsHexColor(hex)
    ensures HexToRgb(hex) == Rgb(PairValue(hex[1], hex[2]), PairValue(hex[3], hex[4]), PairValue(hex[5], hex[6]))
    ensures HexToRgb(hex) == Rgb(0, 0, 0) ==> forall i :: 1 <= i < 7 ==> HexValue(hex[i]) == 0
  {
    assert SixHex(hex[1..]);
  }

  /** Text that is not six hex digits, with or without `#`, is black. */
  lemma MalformedIsBlack(hex: string)
    requires !SixHex(hex) && (|hex| == 0 || hex[0] != '#' || !SixHex(hex[1..]))
    ensures HexToRgb(hex) == Rgb(0, 0, 0)
  {
  }
}
