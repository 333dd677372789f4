/**
  The bot's configuration (src/config.rs): the recipient lists derived from
  the comma-separated settings, the resolution of the points filter, and the
  checks run before the bot starts. Values arrive already parsed from the
  command line and the environment; a `real` stands for each `f32`.
 */
module Settings {
  import opened Wrappers
  import opened Strings
  import opened Numbers
  import opened Points
  import opened Contacts
  import opened Lists

  /** What running a check that may panic leads to. */
  datatype Run = Returned(result: Result<(), ConfigError>) | Panicked

  /** Intervals below this many seconds are rejected. */
  const MinimumInterval: nat := 10

  /** Why a configuration is rejected, one variant per check. */
  datatype ConfigError =
    | InvalidUrl
    | InvalidDatabaseUrl
    | MissingAuthToken
    | MinAboveMax
    | NegativeExact
    | MissingEmailFrom
    | InvalidEmailTo(email: string)
    | InvalidEmailFrom
    | MissingSmsFrom
    | InvalidSmsFrom
    | NoValidSmsNumbers
    | IntervalTooShort(interval: nat)

  /** The entries of a comma-separated setting, each mapped by `f`, read
      entry by entry up to each comma. */
  function Entries<U>(raw: string, f: string -> seq<U>): seq<U>
    decreases |raw|
  {
    match FindChar(raw, ',')
    case None => f(raw)
    case Some(i) => f(raw[..i]) + Entries(raw[i + 1..], f)
  }

  /** Reading entry by entry is mapping over the pieces of the split. */
  lemma {:induction false} EntriesSplit<U>(raw: string, f: string -> seq<U>)
    ensures Entries(raw, f) == ConcatMap(Split(raw, ','), f)
    decreases |raw|
  {
    match FindChar(raw, ',')
    case None =>
      assert [raw][1..] == [];
    case Some(i) =>
      EntriesSplit(raw[i + 1..], f);
      var parts := Split(raw, ',');
      assert parts[0] == raw[..i] && parts[1..] == Split(raw[i + 1..], ',');
  }

  /** An entry followed by a comma is read on its own, then the rest. */
  lemma EntriesCons<U>(entry: string, rest: string, f: string -> seq<U>)
    requires ',' !in entry
    ensures Entries(entry + [','] + rest, f) == f(entry) + Entries(rest, f)
  {
    var raw := entry + [','] + rest;
    FindCharAfter(entry, ',', rest);
    assert raw[..|entry|] == entry && raw[|entry| + 1..] == rest;
  }

  /** One entry of an address list, trimmed; a blank entry gives nothing. */
  function AddressOf(p: string): seq<string> {
    if Trim(p) == [] then [] else [Trim(p)]
  }

  /** One entry of a number list, normalised as a Norwegian number; an entry
      that is not one gives nothing. */
  function NumberOf(p: string): seq<string> {
    match NormalizeNorwegianPhone(Trim(p))
    case None => []
    case Some(n) => [n]
  }

  /** The checked settings; the database path, verbosity and web port are
      not part of the model. */
  datatype Config = Config(
    url: string,
    databaseUrl: Option<string>,
    databaseAuthToken: Option<string>,
    pointsExact: Option<real>,
    pointsMax: Option<real>,
    pointsMin: Option<real>,
    pointsFilterExpr: Option<string>,
    emailTo: Option<string>,
    emailFrom: Option<string>,
    smsTo: Option<string>,
    smsFrom: Option<string>)
  {
    /** `email_recipients`: the comma-separated addresses, trimmed, without
        empty entries. */
    function EmailRecipients(): (r: seq<string>)
      ensures emailTo.None? ==> r == []
    {
      match emailTo
      case None => []
      case Some(s) => Entries(s, AddressOf)
    }

    /** `email_enabled`. */
    predicate EmailEnabled() {
      emailTo.Some? && EmailRecipients() != []
    }

    /** `uses_turso`: a remote database is configured. */
    predicate UsesTurso() {
      databaseUrl.Some?
    }

    /** `sms_recipients`: the comma-separated numbers that normalise as
        Norwegian numbers, normalised. */
    function SmsRecipients(): (r: seq<string>)
      ensures smsTo.None? ==> r == []
    {
      match smsTo
      case None => []
      case Some(s) => Entries(s, NumberOf)
    }

    /** `sms_enabled`. */
    predicate SmsEnabled() {
      smsTo.Some? && SmsRecipients() != []
    }

    /** `points_filter`: an expression that parses takes precedence over the
        individual flags; of those, an exact value wins over the bounds. */
    function Filter(): (f: PointsFilter)
      ensures f.NoFilter? ==>
        (pointsExact.None? && pointsMin.None? && pointsMax.None?)
        || (pointsFilterExpr.Some? && Trim(pointsFilterExpr.value) == [])
    {
      if pointsFilterExpr.Some? && ParsePointsFilterExpr(pointsFilterExpr.value).Some? then
        BlankExpression(pointsFilterExpr.value);
        ParsePointsFilterExpr(pointsFilterExpr.value).value
      else if pointsExact.Some? then Exact(pointsExact.value)
      else if pointsMin.Some? || pointsMax.Some? then Range(pointsMin, pointsMax)
      else NoFilter
    }

    /** The email part of `validate`, run only when email is enabled. */
    function EmailProblem(): Option<ConfigError> {
      if !EmailEnabled() then None
      else if emailFrom.None? then Some(MissingEmailFrom)
      else
        match FirstFailing(EmailRecipients(), IsValidEmail)
        case Some(e) => Some(InvalidEmailTo(e))
        case None =>
          if !IsValidEmail(ExtractEmail(emailFrom.value)) then Some(InvalidEmailFrom) else None
    }

    /** The SMS part of `validate`, run only when SMS is enabled. */
    function SmsProblem(): Option<ConfigError> {
      if !SmsEnabled() then None
      else if smsFrom.None? then Some(MissingSmsFrom)
      else if NormalizeTwilioPhone(smsFrom.value).None? then Some(InvalidSmsFrom)
      else
        match smsTo
        case None => None
        case Some(raw) =>
          if SmsRecipients() == [] && |Split(raw, ',')| > 0 then Some(NoValidSmsNumbers) else None
    }

    /** The checks `validate` runs before the notification settings: the
        URL, the database settings and the points flags, in that order. */
    function SetupProblem(): Option<ConfigError> {
      if !StartsWith(url, "http://") && !StartsWith(url, "https://") then Some(InvalidUrl)
      else if databaseUrl.Some? && !StartsWith(databaseUrl.value, "libsql://")
        && !StartsWith(databaseUrl.value, "https://") then Some(InvalidDatabaseUrl)
      else if databaseUrl.Some? && databaseAuthToken.None? then Some(MissingAuthToken)
      else if pointsMin.Some? && pointsMax.Some? && pointsMin.value > pointsMax.value then Some(MinAboveMax)
      else if pointsExact.Some? && pointsExact.value < 0.0 then Some(NegativeExact)
      else None
    }

    /** `validate` with the sender read by the corrected extraction: the
        checks in the source's order; the first that fails is reported. */
    function Validate(): (r: Result<(), ConfigError>)
      ensures r.Err? ==> !r.error.NoValidSmsNumbers? && !r.error.IntervalTooShort?
    {
      if SetupProblem().Some? then Err(SetupProblem().value)
      else if EmailProblem().Some? then Err(EmailProblem().value)
      else if SmsProblem().Some? then (SmsProblemIsReal(this); Err(SmsProblem().value))
      else Ok(())
    }

    /** The email part of `validate` as written, with the sender read by
        the extraction as written: `None` when that read panics, otherwise
        the problem found, if any. */
    function EmailProblemAsWritten(): Option<Option<ConfigError>> {
      if !EmailEnabled() then Some(None)
      else if emailFrom.None? then Some(Some(MissingEmailFrom))
      else
        match FirstFailing(EmailRecipients(), IsValidEmail)
        case Some(e) => Some(Some(InvalidEmailTo(e)))
        case None =>
          match ExtractEmailAsWritten(emailFrom.value)
          case None => None
          case Some(sender) => Some(if !IsValidEmail(sender) then Some(InvalidEmailFrom) else None)
    }

    /** `validate` as written: its result, or the panic of the sender's
        extraction. */
    function ValidateAsWritten(): Run {
      if SetupProblem().Some? then Returned(Err(SetupProblem().value))
      else
        match EmailProblemAsWritten()
        case None => Panicked
        case Some(Some(e)) => Returned(Err(e))
        case Some(None) => Returned(if SmsProblem().Some? then Err(SmsProblem().value) else Ok(()))
    }

    /** The email check reaches the sender, and the sender's first '>'
        precedes its first '<'. */
    predicate SenderPanics() {
      && EmailEnabled()
      && emailFrom.Some?
      && (forall e :: e in EmailRecipients() ==> IsValidEmail(e))
      && var a := Trim(emailFrom.value);
         FindChar(a, '<').Some? && FindChar(a, '>').Some? && FindChar(a, '>').value < FindChar(a, '<').value
    }

    /** Every requirement `validate` enforces, independent of their order. */
    predicate Acceptable() {
      && (StartsWith(url, "http://") || StartsWith(url, "https://"))
      && (databaseUrl.Some? ==>
            (StartsWith(databaseUrl.value, "libsql://") || StartsWith(databaseUrl.value, "https://"))
            && databaseAuthToken.Some?)
      && (pointsMin.Some? && pointsMax.Some? ==> pointsMin.value <= pointsMax.value)
      && (pointsExact.Some? ==> pointsExact.value >= 0.0)
      && EmailSettingsAcceptable()
      && SmsSettingsAcceptable()
    }

    /** The email requirements: a sender, and valid addresses throughout. */
    predicate EmailSettingsAcceptable() {
      EmailEnabled() ==>
        && emailFrom.Some?
        && (forall e :: e in EmailRecipients() ==> IsValidEmail(e))
        && IsValidEmail(ExtractEmail(emailFrom.value))
    }

    /** The SMS requirement: a sending number Twilio accepts. */
    predicate SmsSettingsAcceptable() {
      SmsEnabled() ==> smsFrom.Some? && NormalizeTwilioPhone(smsFrom.value).Some?
    }
  }

  /** The recipient lists are the split, trim and filter pipelines of the
      source over the comma-separated settings. */
  lemma RecipientsArePipelines(c: Config)
    ensures c.emailTo.Some? ==> c.EmailRecipients() == ConcatMap(Split(c.emailTo.value, ','), AddressOf)
    ensures c.smsTo.Some? ==> c.SmsRecipients() == ConcatMap(Split(c.smsTo.value, ','), NumberOf)
  {
    if c.emailTo.Some? {
      EntriesSplit(c.emailTo.value, AddressOf);
    }
    if c.smsTo.Some? {
      EntriesSplit(c.smsTo.value, NumberOf);
    }
  }

  /** What is read is exactly what the pieces of the split contribute. */
  lemma EntriesElements<U>(raw: string, f: string -> seq<U>)
    ensures forall y :: y in Entries(raw, f) <==> exists p :: p in Split(raw, ',') && y in f(p)
  {
    EntriesSplit(raw, f);
    ConcatMapElements(Split(raw, ','), f);
  }

  /** The addresses of a list are exactly the entries that are not blank,
      trimmed; so each is trimmed and not empty. */
  lemma AddressesOfList(raw: string)
    ensures forall e :: e in Entries(raw, AddressOf) <==>
      exists p :: p in Split(raw, ',') && Trim(p) != [] && Trim(p) == e
  {
    EntriesElements(raw, AddressOf);
  }

  /** The numbers of a list are exactly the normal forms of the entries
      that are Norwegian numbers. */
  lemma NumbersOfList(raw: string)
    ensures forall n :: n in Entries(raw, NumberOf) <==>
      exists p :: p in Split(raw, ',') && NormalizeNorwegianPhone(Trim(p)) == Some(n)
  {
    EntriesElements(raw, NumberOf);
  }

  /** Email is enabled exactly when some entry is not blank; SMS is enabled
      exactly when some entry is a Norwegian number. */
  lemma EnabledMeaning(c: Config)
    ensures c.EmailEnabled() <==>
      c.emailTo.Some? && exists p :: p in Split(c.emailTo.value, ',') && Trim(p) != []
    ensures c.SmsEnabled() <==>
      c.smsTo.Some? && exists p :: p in Split(c.smsTo.value, ',') && NormalizeNorwegianPhone(Trim(p)).Some?
  {
    RecipientsArePipelines(c);
    if c.emailTo.Some? {
      ConcatMapEmpty(Split(c.emailTo.value, ','), AddressOf);
    }
    if c.smsTo.Some? {
      ConcatMapEmpty(Split(c.smsTo.value, ','), NumberOf);
    }
  }

  /** The email part reports only email problems, each of them real. */
  lemma EmailProblemIsReal(c: Config)
    requires c.EmailProblem().Some?
    ensures c.EmailEnabled()
    ensures match c.EmailProblem().value
      case MissingEmailFrom => c.emailFrom.None?
      case InvalidEmailTo(e) => e in c.EmailRecipients() && !IsValidEmail(e)
      case InvalidEmailFrom => c.emailFrom.Some? && !IsValidEmail(ExtractEmail(c.emailFrom.value))
      case _ => false
  {
    FirstFailingMeaning(c.EmailRecipients(), IsValidEmail);
  }

  /** The SMS part reports only SMS problems, each of them real; its last
      check can never fire, because SMS is only checked when enabled, and
      enabled means some number was kept. */
  lemma SmsProblemIsReal(c: Config)
    requires c.SmsProblem().Some?
    ensures c.SmsEnabled()
    ensures match c.SmsProblem().value
      case MissingSmsFrom => c.smsFrom.None?
      case InvalidSmsFrom => c.smsFrom.Some? && NormalizeTwilioPhone(c.smsFrom.value).None?
      case _ => false
  {
  }

  /** The email part finds nothing exactly when the email settings are acceptable. */
  lemma EmailProblemMeaning(c: Config)
    ensures c.EmailProblem().None? <==> c.EmailSettingsAcceptable()
  {
    FirstFailingMeaning(c.EmailRecipients(), IsValidEmail);
  }

  /** The SMS part finds nothing exactly when the SMS settings are acceptable. */
  lemma SmsProblemMeaning(c: Config)
    ensures c.SmsProblem().None? <==> c.SmsSettingsAcceptable()
  {
  }

  /** A configuration that meets every requirement passes. */
  lemma AcceptableValidates(c: Config)
    requires c.Acceptable()
    ensures c.Validate() == Ok(())
  {
    EmailProblemMeaning(c);
    SmsProblemMeaning(c);
    assert !(c.pointsMin.Some? && c.pointsMax.Some? && c.pointsMin.value > c.pointsMax.value);
    assert !(c.pointsExact.Some? && c.pointsExact.value < 0.0);
    assert c.EmailProblem().None? && c.SmsProblem().None?;
  }

  /** A configuration passes exactly when it meets every requirement. */
  lemma ValidateMeaning(c: Config)
    ensures c.Validate().Ok? <==> c.Acceptable()
  {
    EmailProblemMeaning(c);
    SmsProblemMeaning(c);
    if c.Acceptable() {
      AcceptableValidates(c);
    }
  }

  /** Each reported error names a requirement the configuration breaks;
      in particular the "no valid numbers" error is never reported. */
  lemma ValidateErrorsAreReal(c: Config)
    requires c.Validate().Err?
    ensures match c.Validate().error
      case InvalidUrl => !StartsWith(c.url, "http://") && !StartsWith(c.url, "https://")
      case InvalidDatabaseUrl =>
        c.databaseUrl.Some? && !StartsWith(c.databaseUrl.value, "libsql://") && !StartsWith(c.databaseUrl.value, "https://")
      case MissingAuthToken => c.databaseUrl.Some? && c.databaseAuthToken.None?
      case MinAboveMax => c.pointsMin.Some? && c.pointsMax.Some? && c.pointsMin.value > c.pointsMax.value
      case NegativeExact => c.pointsExact.Some? && c.pointsExact.value < 0.0
      case MissingEmailFrom => c.EmailEnabled() && c.emailFrom.None?
      case InvalidEmailTo(e) => c.EmailEnabled() && e in c.EmailRecipients() && !IsValidEmail(e)
      case InvalidEmailFrom => c.EmailEnabled() && c.emailFrom.Some? && !IsValidEmail(ExtractEmail(c.emailFrom.value))
      case MissingSmsFrom => c.SmsEnabled() && c.smsFrom.None?
      case InvalidSmsFrom => c.SmsEnabled() && c.smsFrom.Some? && NormalizeTwilioPhone(c.smsFrom.value).None?
      case NoValidSmsNumbers => false
      case IntervalTooShort(_) => false
  {
    if c.EmailProblem().Some? {
      EmailProblemIsReal(c);
    }
    if c.SmsProblem().Some? {
      SmsProblemIsReal(c);
    }
  }

  /** The rejections the points flags lead to, whatever else is configured,
      once the URL and the database settings pass. */
  lemma ValidateRejectsBadPoints(c: Config)
    requires StartsWith(c.url, "http://") || StartsWith(c.url, "https://")
    requires c.databaseUrl.Some? ==>
      (StartsWith(c.databaseUrl.value, "libsql://") || StartsWith(c.databaseUrl.value, "https://"))
      && c.databaseAuthToken.Some?
    ensures c.pointsMin.Some? && c.pointsMax.Some? && c.pointsMin.value > c.pointsMax.value ==>
      c.Validate() == Err(MinAboveMax)
    ensures
      ((c.pointsMin.None? || c.pointsMax.None? || c.pointsMin.value <= c.pointsMax.value)
       && c.pointsExact.Some? && c.pointsExact.value < 0.0)
      ==> c.Validate() == Err(NegativeExact)
  {
  }

  /** `validate` as written panics exactly when the sender check is reached
      with a sender whose first '>' precedes its first '<'; otherwise it
      returns what the corrected `validate` returns. */
  lemma ValidateAsWrittenMeaning(c: Config)
    ensures c.ValidateAsWritten() ==
      if c.SetupProblem().None? && c.SenderPanics() then Panicked else Returned(c.Validate())
  {
    FirstFailingMeaning(c.EmailRecipients(), IsValidEmail);
    if c.EmailEnabled() && c.emailFrom.Some? {
      AsWrittenPanics(c.emailFrom.value);
    }
  }

  /** `validate` as written accepts a configuration exactly when it meets
      every requirement and its sender does not make the extraction panic. */
  lemma ValidateAsWrittenAccepts(c: Config)
    ensures c.ValidateAsWritten() == Returned(Ok(())) <==> c.Acceptable() && !c.SenderPanics()
  {
    ValidateAsWrittenMeaning(c);
    ValidateMeaning(c);
    assert c.Acceptable() ==> c.SetupProblem().None?;
  }

  /** An address list with one entry and no comma gives that entry. */
  lemma SingleRecipient(e: string)
    requires ',' !in e && IsTrimmed(e) && e != []
    ensures Entries(e, AddressOf) == [e]
  {
    assert FindChar(e, ',') == None;
    TrimOfTrimmed(e);
  }

  /** With one valid recipient, no SMS settings and nothing wrong before the
      notification checks, a sender that the corrected extraction accepts
      and the written one panics on splits the two: the source panics where
      the corrected `validate` accepts. */
  lemma SenderSplitsValidate(c: Config, to: string)
    requires c.SetupProblem().None? && c.smsTo.None?
    requires c.emailTo == Some(to) && ',' !in to && IsTrimmed(to) && IsValidEmail(to)
    requires c.emailFrom.Some? && ExtractEmailAsWritten(c.emailFrom.value).None?
    requires IsValidEmail(ExtractEmail(c.emailFrom.value))
    ensures c.ValidateAsWritten() == Panicked && c.Validate() == Ok(())
  {
    SingleRecipient(to);
    FirstFailingMeaning(c.EmailRecipients(), IsValidEmail);
    AsWrittenPanics(c.emailFrom.value);
    ValidateAsWrittenMeaning(c);
  }

  /** The sender `>a<b@c.d`: the source's `validate` panics on it, where the
      corrected one accepts the configuration. */
  lemma ValidateAsWrittenPanicExample()
    ensures var c := Config("https://example.com", None, None, None, None, None, None,
                            Some("a@b.com"), Some(">a<b@c.d"), None, None);
      c.ValidateAsWritten() == Panicked && c.Validate() == Ok(())
  {
    var c := Config("https://example.com", None, None, None, None, None, None,
                    Some("a@b.com"), Some(">a<b@c.d"), None, None);
    assert c.SetupProblem() == None by {
      assert c.url[..8] == "https://";
    }
    var to, from := "a@b.com", ">a<b@c.d";
    assert ',' !in to && IsTrimmed(to) && IsValidEmail(to) by {
      PlainRecipientExample();
    }
    assert ExtractEmailAsWritten(from).None? && IsValidEmail(ExtractEmail(from)) by {
      ReversedSenderTakenWhole();
      ReversedSenderExample();
      AsWrittenPanicExample();
    }
    SenderSplitsValidate(c, to);
  }

  /** A URL with another scheme is rejected before anything else is looked at. */
  lemma ValidateRejectsUrlFirst(c: Config)
    requires !StartsWith(c.url, "http://") && !StartsWith(c.url, "https://")
    ensures c.Validate() == Err(InvalidUrl)
  {
  }

  /** When the expression parses, the individual flags are ignored. */
  lemma ExpressionTakesPrecedence(c: Config, exact: Option<real>, min: Option<real>, max: Option<real>)
    requires c.pointsFilterExpr.Some? && ParsePointsFilterExpr(c.pointsFilterExpr.value).Some?
    ensures c.Filter() == ParsePointsFilterExpr(c.pointsFilterExpr.value).value
    ensures c.(pointsExact := exact, pointsMin := min, pointsMax := max).Filter() == c.Filter()
  {
  }

  /** When there is no expression, or it does not parse, only the flags
      count: the filter accepts a value exactly when the exact flag (if set)
      matches it, and otherwise when it lies within the given bounds. */
  lemma FlagsWhenNoExpression(c: Config, p: real)
    requires c.pointsFilterExpr.None? || ParsePointsFilterExpr(c.pointsFilterExpr.value).None?
    ensures c.Filter() == c.(pointsFilterExpr := None).Filter()
    ensures c.pointsExact.Some? ==> (c.Filter().Matches(p) <==> Abs(p - c.pointsExact.value) < Epsilon)
    ensures c.pointsExact.None? ==>
      (c.Filter().Matches(p) <==>
        (c.pointsMin.None? || p >= c.pointsMin.value) && (c.pointsMax.None? || p <= c.pointsMax.value))
    ensures c.pointsExact.None? && c.pointsMin.None? && c.pointsMax.None? ==> c.Filter() == NoFilter
  {
  }

  /** The configuration of the precedence test: `2.5` as expression and
      `10` as exact flag give `Exact(2.5)`. */
  lemma PrecedenceExample()
    ensures Config("https://example.com", None, None, Some(10.0), None, None, Some("2.5"),
                   None, None, None, None).Filter() == Exact(2.5)
  {
    ExampleExactDecimal();
  }

  /** A leading space is all that trimming removes. */
  lemma TrimLeadingSpace(e: string)
    requires IsTrimmed(e) && e != []
    ensures Trim([' '] + e) == e
  {
    assert ([' '] + e)[1..] == e;
    TrimStartOfTrimmed(e);
    TrimOfTrimmed(e);
  }

  /** Three entries without commas are read one after the other. */
  lemma ThreeEntries<U>(x: string, y: string, z: string, f: string -> seq<U>)
    requires ',' !in x && ',' !in y
    ensures Entries(x + [','] + (y + [','] + z), f) == f(x) + f(y) + Entries(z, f)
  {
    EntriesCons(x, y + [','] + z, f);
    EntriesCons(y, z, f);
  }

  /** Three addresses, the last two after a space, are read back without
      the spaces. */
  lemma SpacedAddresses(a: string, b: string, e: string)
    requires ',' !in a && ',' !in b && ',' !in e
    requires a != [] && b != [] && e != [] && IsTrimmed(a) && IsTrimmed(b) && IsTrimmed(e)
    ensures Entries(a + [','] + ([' '] + b + [','] + ([' '] + e)), AddressOf) == [a, b, e]
  {
    TrimOfTrimmed(a);
    TrimLeadingSpace(b);
    TrimLeadingSpace(e);
    assert AddressOf(a) == [a] && AddressOf([' '] + b) == [b];
    assert Entries([' '] + e, AddressOf) == [e] by {
      assert FindChar([' '] + e, ',') == None;
    }
    ThreeEntries(a, [' '] + b, [' '] + e, AddressOf);
  }

  /** `a@b.com, c@d.com, e@f.com` lists three addresses, spaces removed. */
  lemma EmailRecipientsExample()
    ensures Config("https://example.com", None, None, None, None, None, None,
                   Some("a@b.com" + [','] + (" c@d.com" + [','] + " e@f.com")), None, None, None).EmailRecipients()
            == ["a@b.com", "c@d.com", "e@f.com"]
  {
    var a, b, e := "a@b.com", "c@d.com", "e@f.com";
    assert " c@d.com" == [' '] + b && " e@f.com" == [' '] + e;
    assert forall i :: 0 <= i < |a| ==> a[i] != ',';
    assert forall i :: 0 <= i < |b| ==> b[i] != ',';
    assert forall i :: 0 <= i < |e| ==> e[i] != ',';
    SpacedAddresses(a, b, e);
  }

  /** `validate_interval`: intervals shorter than the minimum are refused. */
  function ValidateInterval(interval: nat): (r: Result<(), ConfigError>)
    ensures r.Ok? <==> interval >= MinimumInterval
    ensures r.Err? ==> r.error == IntervalTooShort(interval)
  {
    if interval < 10 then Err(IntervalTooShort(interval)) else Ok(())
  }
}
