/** Certificate recipients read from a spreadsheet: each row becomes a
    recipient with a name, an e-mail and a validity flag; the valid ones
    are stored as pending. Reading the spreadsheet, the session and the
    database are inputs. */
module UploadRecipients {
  import opened Text

  /** A spreadsheet cell as `sheet_to_json` returns it. */
  datatype Cell = Str(s: string) | Num(n: int) | Flag(b: bool)

  /** A row: column heading to cell; a missing heading is `undefined`. */
  type Row = map<string, Cell>

  /** JavaScript truthiness of a cell: `""`, `0` and `false` are falsy. */
  predicate Truthy(c: Cell)
  {
    match c
    case Str(s) => s != []
    case Num(n) => n != 0
    case Flag(b) => b
  }

  /** `.toString()` of a cell. */
  function CellText(c: Cell): string
  {
    match c
    case Str(s) => s
    case Num(n) => IntToString(n)
    case Flag(b) => if b then "true" else "false"
  }

  /** Heading `k` is present in `row` with a truthy cell. */
  predicate Picks(row: Row, k: string)
  {
    k in row && Truthy(row[k])
  }

  /** `row[k1] || row[k2] || ... || ''`, as text: the text of the first
      heading with a truthy cell, and empty when there is none. */
  function FirstOf(row: Row, keys: seq<string>): (r: string)
    ensures r != [] <==> exists j :: 0 <= j < |keys| && Picks(row, keys[j])
    ensures forall j :: 0 <= j < |keys| && Picks(row, keys[j]) && (forall i :: 0 <= i < j ==> !Picks(row, keys[i]))
              ==> r == CellText(row[keys[j]])
  {
    if keys == [] then ""
    else if Picks(row, keys[0]) then CellText(row[keys[0]])
    else
      var r := FirstOf(row, keys[1..]);
      assert forall j :: 1 <= j < |keys| ==> keys[1..][j - 1] == keys[j];
      r
  }

  const NameColumns: seq<string> := ["Name", "name", "Student Name"]
  const EmailColumns: seq<string> := ["Email", "email", "Student Email"]

  /** The trimmed name. */
  function NameOf(row: Row): string
  {
    Trim(FirstOf(row, NameColumns))
  }

  /** The trimmed, lower-cased e-mail. */
  function EmailOf(row: Row): string
  {
    Lower(Trim(FirstOf(row, EmailColumns)))
  }

  // ---------------------------------------------------------------------------
  // The e-mail pattern /^[^\s@]+@[^\s@]+\.[^\s@]+$/
  // ---------------------------------------------------------------------------

  /** `[^\s@]*`: no whitespace and no `@`. */
  predicate Plain(s: string)
  {
    forall i :: 0 <= i < |s| ==> !IsJsSpace(s[i]) && s[i] != '@'
  }

  /** A dot with text on both sides. */
  predicate HasInnerDot(d: string)
  {
    exists j :: 0 < j < |d| - 1 && d[j] == '.'
  }

  /** The rule the pattern enforces, read position by position: one `@`
      after a non-empty local part, and a plain domain with an inner dot. */
  predicate ValidEmail(e: string)
  {
    exists i :: 0 < i < |e| && e[i] == '@' && Plain(e[..i]) && Plain(e[i + 1..]) && HasInnerDot(e[i + 1..])
  }

  /** The pattern's own reading: three non-empty plain runs joined by `@`
      and `.`. */
  ghost predicate MatchesPattern(e: string)
  {
    exists a: string, b: string, c: string :: PatternSplit(e, a, b, c)
  }

  /** `e` is `a@b.c` with each run non-empty and plain. */
  predicate PatternSplit(e: string, a: string, b: string, c: string)
  {
    e == a + "@" + b + "." + c && a != [] && b != [] && c != [] && Plain(a) && Plain(b) && Plain(c)
  }

  /** The position-by-position rule accepts exactly the pattern's strings. */
  lemma ValidEmailIffPattern(e: string)
    ensures ValidEmail(e) <==> MatchesPattern(e)
  {
    if ValidEmail(e) {
      ValidIsPattern(e);
    }
    if MatchesPattern(e) {
      var a, b, c :| PatternSplit(e, a, b, c);
      PatternIsValid(e, a, b, c);
    }
  }

  /** The rule's positions split the e-mail the way the pattern does. */
  lemma ValidIsPattern(e: string)
    requires ValidEmail(e)
    ensures MatchesPattern(e)
  {
    var i :| 0 < i < |e| && e[i] == '@' && Plain(e[..i]) && Plain(e[i + 1..]) && HasInnerDot(e[i + 1..]);
    var d := e[i + 1..];
    var j :| 0 < j < |d| - 1 && d[j] == '.';
    var a, b, c := e[..i], d[..j], d[j + 1..];
    PlainParts(d, j);
    Join3(e, i, j);
    assert PatternSplit(e, a, b, c);
  }

  /** Cutting at an `@` and then at a `.` after it gives three pieces that
      join back into the text. */
  lemma Join3(e: string, i: nat, j: nat)
    requires i < |e| && e[i] == '@'
    requires j < |e| - i - 1 && e[i + 1..][j] == '.'
    ensures e == e[..i] + "@" + e[i + 1..][..j] + "." + e[i + 1..][j + 1..]
  {
    var d := e[i + 1..];
    assert d == d[..j] + "." + d[j + 1..];
    assert e == e[..i] + "@" + d;
  }

  /** Both sides of a position in a plain text are plain. */
  lemma PlainParts(d: string, j: nat)
    requires Plain(d) && j < |d|
    ensures Plain(d[..j]) && Plain(d[j + 1..])
  {
    var c := d[j + 1..];
    forall k | 0 <= k < |c|
      ensures !IsJsSpace(c[k]) && c[k] != '@'
    {
      assert c[k] == d[j + 1 + k];
    }
  }

  /** The pattern's split gives the positions the rule asks for. */
  lemma PatternIsValid(e: string, a: string, b: string, c: string)
    requires e == a + "@" + b + "." + c && a != [] && b != [] && c != []
    requires Plain(a) && Plain(b) && Plain(c)
    ensures ValidEmail(e)
  {
    var i := |a|;
    var d := b + "." + c;
    assert e == a + "@" + d;
    assert e[..i] == a && e[i] == '@' && e[i + 1..] == d;
    assert d[|b|] == '.';
    forall k | 0 <= k < |d|
      ensures !IsJsSpace(d[k]) && d[k] != '@'
    {
      if k < |b| {
        assert d[k] == b[k];
      } else if k > |b| {
        assert d[k] == c[k - |b| - 1];
      }
    }
  }

  /** A valid e-mail has one `@`, no whitespace, and a non-empty local part. */
  lemma ValidEmailShape(e: string)
    requires ValidEmail(e)
    ensures exists i :: 0 < i < |e| && e[i] == '@' && forall k :: 0 <= k < |e| && e[k] == '@' ==> k == i
    ensures forall k :: 0 <= k < |e| ==> !IsJsSpace(e[k])
  {
    var i :| 0 < i < |e| && e[i] == '@' && Plain(e[..i]) && Plain(e[i + 1..]) && HasInnerDot(e[i + 1..]);
    forall k | 0 <= k < |e| && k != i
      ensures !IsJsSpace(e[k]) && e[k] != '@'
    {
      if k < i {
        assert e[k] == e[..i][k];
      } else {
        assert e[k] == e[i + 1..][k - i - 1];
      }
    }
  }

  // ---------------------------------------------------------------------------
  // Recipients
  // ---------------------------------------------------------------------------

  datatype Recipient = Recipient(name: string, email: string, valid: bool)

  /** One row's recipient: a missing name is shown as `Unknown`, and the
      row is valid when it has a name and the e-mail fits the pattern. */
  function RecipientOf(row: Row): Recipient
  {
    var name := NameOf(row);
    var email := EmailOf(row);
    Recipient(if name == [] then "Unknown" else name, email, name != [] && ValidEmail(email))
  }

  /** The loop over the rows: one recipient per row, in row order. */
  method ReadRecipients(rows: seq<Row>) returns (recipients: seq<Recipient>)
    ensures recipients == RecipientsOf(rows)
  {
    recipients := [];
    for n := 0 to |rows|
      invariant recipients == RecipientsOf(rows[..n])
    {
      assert rows[..n + 1][..n] == rows[..n];
      recipients := recipients + [RecipientOf(rows[n])];
    }
    assert rows[..|rows|] == rows;
  }

  /** The recipients of the rows, one per row. */
  function RecipientsOf(rows: seq<Row>): (r: seq<Recipient>)
    ensures |r| == |rows|
  {
    if rows == [] then [] else RecipientsOf(rows[..|rows| - 1]) + [RecipientOf(rows[|rows| - 1])]
  }

  /** `RecipientsOf` keeps row order: the recipient at `i` is row `i`'s. */
  lemma {:induction false} RecipientsOfEach(rows: seq<Row>, i: nat)
    requires i < |rows|
    ensures RecipientsOf(rows)[i] == RecipientOf(rows[i])
  {
    if i < |rows| - 1 {
      RecipientsOfEach(rows[..|rows| - 1], i);
    }
  }

  function IsValid(r: Recipient): bool { r.valid }
  function IsInvalid(r: Recipient): bool { !r.valid }

  /** A row without a name is reported as `Unknown` and is never valid. */
  lemma NamelessRowInvalid(row: Row)
    requires NameOf(row) == []
    ensures RecipientOf(row).name == "Unknown" && !RecipientOf(row).valid
  {
  }

  /** A valid recipient has a non-blank name with no surrounding whitespace,
      and an e-mail that fits the pattern. */
  lemma ValidRecipientShape(row: Row)
    requires RecipientOf(row).valid
    ensures RecipientOf(row).name == NameOf(row) != []
    ensures !IsJsSpace(RecipientOf(row).name[0])
    ensures MatchesPattern(RecipientOf(row).email)
  {
    ValidEmailIffPattern(EmailOf(row));
  }

  /** The stored e-mail has no upper-case letters and is as long as the
      trimmed cell. */
  lemma EmailLowerCase(row: Row)
    ensures |RecipientOf(row).email| == |Trim(FirstOf(row, EmailColumns))|
    ensures forall k :: 0 <= k < |RecipientOf(row).email| ==> !IsUpper(RecipientOf(row).email[k])
  {
  }

  /** The name column is read in the order `Name`, `name`, `Student Name`:
      a filled-in `Name` wins. */
  lemma NameColumnOrder(row: Row, s: string)
    requires "Name" in row && row["Name"] == Str(s) && s != []
    ensures NameOf(row) == Trim(s)
  {
  }

  /** The valid and invalid lists split the recipients: each one lands in
      exactly one list, each list keeps the original order, and the counts
      add up. */
  lemma Partition(recipients: seq<Recipient>, r: Recipient)
    ensures r in recipients ==> (r in Filter(recipients, IsValid) <==> r !in Filter(recipients, IsInvalid))
    ensures r in Filter(recipients, IsValid) ==> r in recipients && r.valid
    ensures r in Filter(recipients, IsInvalid) ==> r in recipients && !r.valid
    ensures IsSubsequence(Filter(recipients, IsValid), recipients)
    ensures IsSubsequence(Filter(recipients, IsInvalid), recipients)
    ensures |Filter(recipients, IsValid)| + |Filter(recipients, IsInvalid)| == |recipients|
  {
    FilterMember(recipients, IsValid, r);
    FilterMember(recipients, IsInvalid, r);
    FilterInOrder(recipients, IsValid);
    FilterInOrder(recipients, IsInvalid);
    FilterSplit(recipients, IsValid, IsInvalid);
  }

  // ---------------------------------------------------------------------------
  // Storing and answering
  // ---------------------------------------------------------------------------

  /** A row of `certificate_recipients`. */
  datatype StoredRecipient = StoredRecipient(templateId: string, studentEmail: string, studentName: string, generationStatus: string)

  /** `validRecipients.map(...)`: every valid recipient, stored as pending. */
  function ToStore(templateId: string, valid: seq<Recipient>): (r: seq<StoredRecipient>)
    ensures |r| == |valid|
    ensures forall i :: 0 <= i < |r| ==> r[i] == StoredRecipient(templateId, valid[i].email, valid[i].name, "pending")
  {
    if valid == [] then []
    else [StoredRecipient(templateId, valid[0].email, valid[0].name, "pending")] + ToStore(templateId, valid[1..])
  }

  datatype Stats = Stats(totalRecipients: nat, validRecipients: nat, invalidRecipients: nat)

  datatype Failure = Unauthorized | MissingInput | NotOwner | InsertFailed

  datatype Response =
    | Failed(failure: Failure)
    | Succeeded(stored: seq<StoredRecipient>, valid: seq<Recipient>, invalid: seq<Recipient>, stats: Stats)

  /** The HTTP status of each failure. */
  function Status(failure: Failure): (code: int)
    ensures failure == Unauthorized <==> code == 401
    ensures failure == MissingInput <==> code == 400
    ensures failure == NotOwner <==> code == 403
    ensures failure == InsertFailed <==> code == 500
  {
    match failure
    case Unauthorized => 401
    case MissingInput => 400
    case NotOwner => 403
    case InsertFailed => 500
  }

  /** The request. `sessionEmail` is the signed-in user's e-mail,
      `ownsTemplate` whether the template belongs to them, `rows` the first
      sheet, and `insertFails` the database's answer to the insert. An
      empty e-mail or template id counts as missing. */
  method Upload(sessionEmail: Option<string>, hasFile: bool, templateId: Option<string>,
                ownsTemplate: bool, rows: seq<Row>, insertFails: bool) returns (response: Response)
    ensures response == Failed(Unauthorized) <==> sessionEmail.None? || sessionEmail.value == []
    ensures response == Failed(MissingInput) <==>
              sessionEmail.Some? && sessionEmail.value != [] && (!hasFile || templateId.None? || templateId.value == [])
    ensures response == Failed(NotOwner) <==>
              sessionEmail.Some? && sessionEmail.value != [] && hasFile && templateId.Some? && templateId.value != [] && !ownsTemplate
    ensures response == Failed(InsertFailed) <==>
              sessionEmail.Some? && sessionEmail.value != [] && hasFile && templateId.Some? && templateId.value != [] && ownsTemplate
              && insertFails && Filter(RecipientsOf(rows), IsValid) != []
    ensures response.Succeeded? <==>
              sessionEmail.Some? && sessionEmail.value != [] && hasFile && templateId.Some? && templateId.value != [] && ownsTemplate
              && !(insertFails && Filter(RecipientsOf(rows), IsValid) != [])
    ensures response.Succeeded? ==>
              && (forall i :: 0 <= i < |rows| ==> RecipientOf(rows[i]) in response.valid + response.invalid)
              && response.valid == Filter(RecipientsOf(rows), IsValid)
              && response.invalid == Filter(RecipientsOf(rows), IsInvalid)
              && response.stored == ToStore(templateId.value, response.valid)
              && response.stats == Stats(|rows|, |response.valid|, |response.invalid|)
              && response.stats.totalRecipients == response.stats.validRecipients + response.stats.invalidRecipients
  {
    if sessionEmail.None? || sessionEmail.value == [] {
      return Failed(Unauthorized);
    }
    if !hasFile || templateId.None? || templateId.value == [] {
      return Failed(MissingInput);
    }
    if !ownsTemplate {
      return Failed(NotOwner);
    }
    var recipients := ReadRecipients(rows);
    var valid := Filter(recipients, IsValid);
    var invalid := Filter(recipients, IsInvalid);
    if |valid| > 0 && insertFails {
      return Failed(InsertFailed);
    }
    forall i | 0 <= i < |rows|
      ensures RecipientOf(rows[i]) in valid + invalid
    {
      RecipientsOfEach(rows, i);
      Partition(recipients, recipients[i]);
    }
    FilterSplit(recipients, IsValid, IsInvalid);
    response := Succeeded(ToStore(templateId.value, valid), valid, invalid, Stats(|recipients|, |valid|, |invalid|));
  }
}
