/** Organiser payout onboarding: the form validator, the display formatters
    and the payload sent to the server. */
module OrganizerHelpers {
  import opened Text
  import opened RazorpayRoute

  /** The onboarding form; the payload built from it has the same fields.
      An absent `fest_id` is `None`. */
  datatype Onboarding = Onboarding(
    organizerType: string,
    displayName: string,
    legalName: string,
    pan: string,
    bankAccount: string,
    ifsc: string,
    festId: Option<string>)

  /** The keys of the errors object. */
  datatype Field = OrganizerType | DisplayName | LegalName | PanNumber | BankAccountNumber | IfscCode | FestId

  const TypeMessage: string := "Must select CLUB or FEST"
  const DisplayNameMessage: string := "Display name must be at least 3 characters"
  const LegalNameMessage: string := "Legal name must be at least 3 characters"
  const PanRequired: string := "PAN number is required"
  const PanInvalid: string := "Invalid PAN format (e.g., AAAPA5055K)"
  const AccountRequired: string := "Bank account number is required"
  const AccountInvalid: string := "Account number must be 9-18 digits"
  const IfscRequired: string := "IFSC code is required"
  const IfscInvalid: string := "Invalid IFSC format (e.g., SBIN0001234)"
  const FestMessage: string := "Fest selection is required for FEST organizers"

  predicate IsOrganizerType(t: string)
  {
    t == "CLUB" || t == "FEST"
  }

  /** A name long enough once trimmed. */
  predicate LongEnough(name: string)
  {
    |Trim(name)| >= 3
  }

  /** The form passes every check. */
  predicate FormValid(d: Onboarding)
  {
    && IsOrganizerType(d.organizerType)
    && LongEnough(d.displayName)
    && LongEnough(d.legalName)
    && IsPan(d.pan)
    && IsBankAccount(d.bankAccount)
    && IsIfsc(d.ifsc)
    && (d.organizerType == "FEST" ==> Truthy(d.festId))
  }

  /** The message a field gets, if any. Each of PAN, account number and IFSC
      gets at most one: "required" when the field is empty, the format
      message when it is present but malformed. */
  function FieldError(d: Onboarding, f: Field): Option<string>
  {
    match f
    case OrganizerType => if !IsOrganizerType(d.organizerType) then Some(TypeMessage) else None
    case DisplayName => if |Trim(d.displayName)| < 3 then Some(DisplayNameMessage) else None
    case LegalName => if |Trim(d.legalName)| < 3 then Some(LegalNameMessage) else None
    case PanNumber => CodeError(d.pan, IsPan(d.pan), PanRequired, PanInvalid)
    case BankAccountNumber => CodeError(d.bankAccount, IsBankAccount(d.bankAccount), AccountRequired, AccountInvalid)
    case IfscCode => CodeError(d.ifsc, IsIfsc(d.ifsc), IfscRequired, IfscInvalid)
    case FestId => if d.organizerType == "FEST" && !Truthy(d.festId) then Some(FestMessage) else None
  }

  /** Which fields get a message. */
  lemma FieldErrorMeaning(d: Onboarding)
    ensures FieldError(d, OrganizerType).Some? <==> !IsOrganizerType(d.organizerType)
    ensures FieldError(d, DisplayName).Some? <==> !LongEnough(d.displayName)
    ensures FieldError(d, LegalName).Some? <==> !LongEnough(d.legalName)
    ensures FieldError(d, PanNumber).Some? <==> !IsPan(d.pan)
    ensures FieldError(d, BankAccountNumber).Some? <==> !IsBankAccount(d.bankAccount)
    ensures FieldError(d, IfscCode).Some? <==> !IsIfsc(d.ifsc)
    ensures FieldError(d, FestId).Some? <==> d.organizerType == "FEST" && !Truthy(d.festId)
  {
  }

  /** A required code: one message when it is missing, another when it is
      malformed. */
  function CodeError(value: string, wellFormed: bool, required: string, invalid: string): (r: Option<string>)
    requires value == [] ==> !wellFormed
    ensures r.Some? <==> !wellFormed
    ensures r.Some? ==> r.value == if value == [] then required else invalid
  {
    if value == [] then Some(required)
    else if !wellFormed then Some(invalid)
    else None
  }

  /** The form is valid exactly when no field has a message. */
  lemma ValidIffNoErrors(d: Onboarding)
    ensures FormValid(d) <==> forall f :: FieldError(d, f).None?
  {
    FieldErrorMeaning(d);
    if !FormValid(d) {
      if !IsOrganizerType(d.organizerType) { assert FieldError(d, OrganizerType).Some?; }
      else if !LongEnough(d.displayName) { assert FieldError(d, DisplayName).Some?; }
      else if !LongEnough(d.legalName) { assert FieldError(d, LegalName).Some?; }
      else if !IsPan(d.pan) { assert FieldError(d, PanNumber).Some?; }
      else if !IsBankAccount(d.bankAccount) { assert FieldError(d, BankAccountNumber).Some?; }
      else if !IsIfsc(d.ifsc) { assert FieldError(d, IfscCode).Some?; }
      else { assert FieldError(d, FestId).Some?; }
    }
  }

  /** The entry of an errors object for `f`. */
  function Entry(errors: map<Field, string>, f: Field): Option<string>
  {
    if f in errors then Some(errors[f]) else None
  }

  /** `validateOrganizerForm`: fills the errors object field by field, in
      the order of the form; `valid` says whether it stayed empty. */
  method ValidateOrganizerForm(d: Onboarding) returns (valid: bool, errors: map<Field, string>)
    ensures forall f :: Entry(errors, f) == FieldError(d, f)
    ensures valid <==> FormValid(d)
  {
    errors := map[];
    ghost var e := errors;
    errors := AddIf(errors, !IsOrganizerType(d.organizerType), OrganizerType, TypeMessage);
    Step(e, errors, d, OrganizerType);
    e := errors;
    errors := AddIf(errors, |Trim(d.displayName)| < 3, DisplayName, DisplayNameMessage);
    Step(e, errors, d, DisplayName);
    e := errors;
    errors := AddIf(errors, |Trim(d.legalName)| < 3, LegalName, LegalNameMessage);
    Step(e, errors, d, LegalName);
    e := errors;
    errors := AddCodeError(errors, d.pan, IsPan(d.pan), PanNumber, PanRequired, PanInvalid);
    Step(e, errors, d, PanNumber);
    e := errors;
    errors := AddCodeError(errors, d.bankAccount, IsBankAccount(d.bankAccount), BankAccountNumber, AccountRequired, AccountInvalid);
    Step(e, errors, d, BankAccountNumber);
    e := errors;
    errors := AddCodeError(errors, d.ifsc, IsIfsc(d.ifsc), IfscCode, IfscRequired, IfscInvalid);
    Step(e, errors, d, IfscCode);
    e := errors;
    errors := AddIf(errors, d.organizerType == "FEST" && !Truthy(d.festId), FestId, FestMessage);
    Step(e, errors, d, FestId);
    AllFields(errors, d);
    valid := |errors| == 0;
    NoEntriesNoErrors(errors, d);
  }

  /** `if (failed) errors.field = message`. */
  method AddIf(errors: map<Field, string>, failed: bool, f: Field, message: string) returns (r: map<Field, string>)
    ensures r == if failed then errors[f := message] else errors
  {
    r := errors;
    if failed {
      r := r[f := message];
    }
  }

  /** The rule shared by PAN, account number and IFSC: "required" when the
      value is empty, the format message when it is malformed. */
  method AddCodeError(errors: map<Field, string>, value: string, wellFormed: bool, f: Field, required: string, invalid: string)
    returns (r: map<Field, string>)
    ensures r == if value == [] then errors[f := required] else if !wellFormed then errors[f := invalid] else errors
  {
    r := errors;
    if value == [] {
      r := r[f := required];
    } else if !wellFormed {
      r := r[f := invalid];
    }
  }

  /** One field checked: its message, if any, is added and nothing else changes. */
  lemma Step(before: map<Field, string>, after: map<Field, string>, d: Onboarding, f: Field)
    requires Agrees(before, d, Position(f))
    requires after == if FieldError(d, f).Some? then before[f := FieldError(d, f).value] else before
    ensures Agrees(after, d, Position(f) + 1)
  {
    forall g
      ensures Entry(after, g) == if Position(g) < Position(f) + 1 then FieldError(d, g) else None
    {
      if g != f {
        assert Entry(after, g) == Entry(before, g);
      }
    }
  }

  /** The order in which the form's fields are checked. */
  function Position(f: Field): nat
  {
    match f
    case OrganizerType => 0
    case DisplayName => 1
    case LegalName => 2
    case PanNumber => 3
    case BankAccountNumber => 4
    case IfscCode => 5
    case FestId => 6
  }

  lemma AllFields(errors: map<Field, string>, d: Onboarding)
    requires Agrees(errors, d, 7)
    ensures forall f :: Entry(errors, f) == FieldError(d, f)
  {
  }

  /** The errors object holds the right message for each of the first
      `done` fields and nothing for the others. */
  predicate Agrees(errors: map<Field, string>, d: Onboarding, done: nat)
  {
    forall f :: Entry(errors, f) == if Position(f) < done then FieldError(d, f) else None
  }

  lemma NoEntriesNoErrors(errors: map<Field, string>, d: Onboarding)
    requires forall f :: Entry(errors, f) == FieldError(d, f)
    ensures |errors| == 0 <==> FormValid(d)
  {
    ValidIffNoErrors(d);
    if errors != map[] {
      var k :| k in errors;
      assert Entry(errors, k).Some?;
    }
  }

  // ---------------------------------------------------------------------------
  // Display formatters
  // ---------------------------------------------------------------------------

  /** `maskBankAccount`: all but the last four characters become `*`;
      shorter inputs are shown as they are. */
  function MaskBankAccount(account: string): (r: string)
    ensures |r| == |account|
    ensures |account| < 4 ==> r == account
    ensures |account| >= 4 ==>
      && r[|account| - 4..] == account[|account| - 4..]
      && forall i :: 0 <= i < |account| - 4 ==> r[i] == '*'
  {
    if |account| < 4 then account
    else Stars(|account| - 4) + account[|account| - 4..]
  }

  /** `"*".repeat(n)`. */
  function Stars(n: nat): (r: string)
    ensures |r| == n && forall i :: 0 <= i < n ==> r[i] == '*'
  {
    if n == 0 then [] else Stars(n - 1) + "*"
  }

  /** Masking a masked number changes nothing. */
  lemma MaskIdempotent(account: string)
    ensures MaskBankAccount(MaskBankAccount(account)) == MaskBankAccount(account)
  {
  }

  /** `formatPAN`: the upper-cased first ten characters. */
  function FormatPan(pan: string): (r: string)
    ensures |r| == if |pan| < 10 then |pan| else 10
    ensures forall i :: 0 <= i < |r| ==> r[i] == ToUpperChar(pan[i])
    ensures forall i :: 0 <= i < |r| ==> !IsLower(r[i])
    ensures IsPan(pan) ==> r == Upper(pan) && IsPan(r)
  {
    var u := Upper(pan);
    FormatsIgnoreCase(pan);
    if |u| <= 10 then u else u[..10]
  }

  /** Formatting a formatted PAN changes nothing. */
  lemma FormatPanIdempotent(pan: string)
    ensures FormatPan(FormatPan(pan)) == FormatPan(pan)
  {
    var r := FormatPan(pan);
    UpperFixed(r);
  }

  /** `formatIFSC`: upper case; whether the code is valid does not change. */
  function FormatIfsc(ifsc: string): (r: string)
    ensures |r| == |ifsc|
    ensures forall i :: 0 <= i < |r| ==> r[i] == ToUpperChar(ifsc[i])
    ensures forall i :: 0 <= i < |r| ==> !IsLower(r[i])
    ensures IsIfsc(r) == IsIfsc(ifsc)
  {
    FormatsIgnoreCase(ifsc);
    Upper(ifsc)
  }

  lemma UpperFixed(s: string)
    requires forall i :: 0 <= i < |s| ==> !IsLower(s[i])
    ensures Upper(s) == s
  {
  }

  // ---------------------------------------------------------------------------
  // KYC status
  // ---------------------------------------------------------------------------

  const PendingMessage: string := "KYC verification is in progress." + " This typically takes 24-48 hours."
  const VerifiedMessage: string := "KYC verified!" + " You can now receive payouts from events and sponsorships."
  const RejectedPrefix: string := "KYC verification failed: "
  const RejectedFallback: string := "Please contact support for details."

  /** `getKYCStatusMessage`; an absent or empty reason gives the fallback text. */
  function KycStatusMessage(status: string, reason: Option<string>): (r: string)
    ensures r == [] <==> status != "pending" && status != "verified" && status != "rejected"
    ensures status == "rejected" ==> StartsWith(r, RejectedPrefix)
    ensures status == "pending" ==> r == PendingMessage
    ensures status == "verified" ==> r == VerifiedMessage
    ensures status == "rejected" ==>
      r == RejectedPrefix + (if Truthy(reason) then reason.value else RejectedFallback)
  {
    if status == "pending" then PendingMessage
    else if status == "verified" then VerifiedMessage
    else if status == "rejected" then
      var r := RejectedPrefix + (if Truthy(reason) then reason.value else RejectedFallback);
      assert r[..|RejectedPrefix|] == RejectedPrefix;
      r
    else []
  }

  /** A rejection with no reason, or an empty one, reads the same. */
  lemma RejectedWithoutReason()
    ensures KycStatusMessage("rejected", None) == KycStatusMessage("rejected", Some(""))
    ensures KycStatusMessage("rejected", None) == RejectedPrefix + RejectedFallback
  {
  }

  /** A non-empty message tells which status it was written for. */
  lemma KycMessageNamesStatus(s1: string, r1: Option<string>, s2: string, r2: Option<string>)
    requires KycStatusMessage(s1, r1) != []
    requires KycStatusMessage(s1, r1) == KycStatusMessage(s2, r2)
    ensures s1 == s2
  {
    // The three texts part company within the rejection prefix.
    assert PendingMessage[17] != RejectedPrefix[17];
    assert VerifiedMessage[10] != RejectedPrefix[10];
    assert PendingMessage[10] != VerifiedMessage[10];
    var m := KycStatusMessage(s1, r1);
    if s1 == "rejected" || s2 == "rejected" {
      assert m[..|RejectedPrefix|] == RejectedPrefix;
    }
  }

  /** `canReceivePayouts`: only a verified organiser is paid. */
  function CanReceivePayouts(status: string): (r: bool)
    ensures r ==> KycStatusMessage(status, None) == VerifiedMessage
    ensures r <==> status == "verified"
  {
    status == "verified"
  }

  // ---------------------------------------------------------------------------
  // Payload
  // ---------------------------------------------------------------------------

  predicate NotJsSpace(c: char) { !IsJsSpace(c) }

  /** `.replace(/\s/g, "")`: the characters that are not whitespace, in order. */
  function StripSpace(s: string): (r: string)
    ensures r == Filter(s, NotJsSpace)
    ensures forall i :: 0 <= i < |r| ==> !IsJsSpace(r[i])
    ensures (forall i :: 0 <= i < |s| ==> !IsJsSpace(s[i])) ==> r == s
  {
    if s == [] then []
    else
      FilterCons(s, NotJsSpace);
      if IsJsSpace(s[0]) then StripSpace(s[1..])
      else [s[0]] + StripSpace(s[1..])
  }

  /** `buildOnboardingPayload`: names trimmed, codes upper-cased, spaces
      removed from the account number, and `fest_id` sent only when it is
      truthy. */
  function BuildOnboardingPayload(d: Onboarding): (r: Onboarding)
    ensures r.organizerType == d.organizerType
    ensures r.displayName == Trim(d.displayName) && r.legalName == Trim(d.legalName)
    ensures r.pan == Upper(d.pan) && r.ifsc == Upper(d.ifsc)
    ensures r.bankAccount == StripSpace(d.bankAccount)
    ensures Trim(r.displayName) == r.displayName && Trim(r.legalName) == r.legalName
    ensures forall i :: 0 <= i < |r.bankAccount| ==> !IsJsSpace(r.bankAccount[i])
    ensures IsBankAccount(d.bankAccount) ==> r.bankAccount == d.bankAccount
    ensures IsPan(r.pan) == IsPan(d.pan) && IsIfsc(r.ifsc) == IsIfsc(d.ifsc)
    ensures r.festId.Some? <==> Truthy(d.festId)
    ensures r.festId.Some? ==> r.festId == d.festId
  {
    var display := Trim(d.displayName);
    var legal := Trim(d.legalName);
    TrimFixed(display);
    TrimFixed(legal);
    FormatsIgnoreCase(d.pan);
    FormatsIgnoreCase(d.ifsc);
    Onboarding(
      d.organizerType,
      display,
      legal,
      Upper(d.pan),
      StripSpace(d.bankAccount),
      Upper(d.ifsc),
      if Truthy(d.festId) then d.festId else None)
  }

  /** The cleaned payload of a valid form passes the same checks. */
  lemma PayloadOfValidForm(d: Onboarding)
    requires FormValid(d)
    ensures FormValid(BuildOnboardingPayload(d))
  {
  }
}
