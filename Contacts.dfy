/**
  The contact-detail checks of src/config.rs: the plausibility test for email
  addresses, the extraction of the address from a `Name <address>` sender,
  and the two phone-number normalisers (recipients must be Norwegian, the
  sending number may be Norwegian or from the United States).
 */
module Contacts {
  import opened Wrappers
  import opened Strings
  import opened Numbers

  // ---------------------------------------------------------------------
  // Email addresses

  /** The shape the check accepts: exactly one '@', something before it,
      and a dot somewhere after it. */
  predicate EmailShape(t: string) {
    exists i :: 0 < i < |t| && t[i] == '@' && '@' !in t[..i] && '@' !in t[i + 1..] && '.' in t[i + 1..]
  }

  /** `is_valid_email`: trims, then splits at '@' and inspects the two pieces. */
  function IsValidEmail(email: string): bool {
    var e := Trim(email);
    if e == [] then false
    else
      var parts := Split(e, '@');
      if |parts| != 2 then false
      else
        var local, domain := parts[0], parts[1];
        if local == [] then false
        else if domain == [] || '.' !in domain then false
        else true
  }

  /** A string splits into exactly one piece when it has no separator. */
  lemma SplitSingle(s: string, c: char)
    ensures |Split(s, c)| == 1 <==> c !in s
  {
    match FindChar(s, c)
    case None =>
    case Some(i) =>
      assert |Split(s, c)| == 1 + |Split(s[i + 1..], c)|;
  }

  /** An address is accepted exactly when its trimmed form has the shape
      of `EmailShape`. */
  lemma ValidEmailMeaning(email: string)
    ensures IsValidEmail(email) <==> EmailShape(Trim(email))
  {
    var t := Trim(email);
    match FindChar(t, '@')
    case None =>
      assert |Split(t, '@')| == 1;
    case Some(i) =>
      var rest := t[i + 1..];
      assert Split(t, '@') == [t[..i]] + Split(rest, '@');
      SplitSingle(rest, '@');
      if EmailShape(t) {
        var j :| 0 < j < |t| && t[j] == '@' && '@' !in t[..j] && '@' !in t[j + 1..] && '.' in t[j + 1..];
        assert j == i;
      }
      if IsValidEmail(email) {
        assert Split(rest, '@') == [rest];
        assert i > 0 && '@' !in rest && '.' in rest;
      }
  }

  /** A local part and a dotted domain around one '@' make a valid address. */
  lemma ValidEmailOfParts(local: string, domain: string)
    requires local != [] && !IsWhitespace(local[0]) && '@' !in local
    requires '@' !in domain && '.' in domain && !IsWhitespace(domain[|domain| - 1])
    ensures IsValidEmail(local + "@" + domain)
  {
    var t := local + "@" + domain;
    assert t[0] == local[0] && t[|t| - 1] == domain[|domain| - 1];
    TrimOfTrimmed(t);
    assert t[..|local|] == local && t[|local| + 1..] == domain && t[|local|] == '@';
    ValidEmailMeaning(t);
  }

  /** The '@' of such a string is the one after the local part, and the
      domain after it has no dot. */
  lemma NoShapeWithoutDot(local: string, domain: string)
    requires '@' !in local && '@' !in domain && '.' !in domain
    ensures !EmailShape(local + "@" + domain)
  {
  }

  /** Without a dot after the '@' an address is rejected. */
  lemma NoDotInDomain(local: string, domain: string)
    requires '@' !in local && '@' !in domain && '.' !in domain
    requires IsTrimmed(local + "@" + domain)
    ensures !IsValidEmail(local + "@" + domain)
  {
    TrimOfTrimmed(local + "@" + domain);
    ValidEmailMeaning(local + "@" + domain);
    NoShapeWithoutDot(local, domain);
  }

  /** A string that starts with '@' has nothing before its first '@'. */
  lemma NoShapeWithoutLocal(domain: string)
    ensures !EmailShape("@" + domain)
  {
    var t := "@" + domain;
    assert forall i :: 0 < i <= |t| ==> t[..i][0] == '@';
  }

  /** Without anything before the '@' an address is rejected. */
  lemma NothingBeforeAt(domain: string)
    requires IsTrimmed("@" + domain)
    ensures !IsValidEmail("@" + domain)
  {
    TrimOfTrimmed("@" + domain);
    ValidEmailMeaning("@" + domain);
    NoShapeWithoutLocal(domain);
  }

  lemma ValidEmailExample()
    ensures IsValidEmail("user@example.com")
  {
    assert "user" + "@" + "example.com" == "user@example.com";
    assert "example.com"[7] == '.';
    ValidEmailOfParts("user", "example.com");
  }

  lemma NoDomainDotExample()
    ensures !IsValidEmail("user@localhost")
  {
    assert "user" + "@" + "localhost" == "user@localhost";
    NoDotInDomain("user", "localhost");
  }

  lemma NoLocalPartExample()
    ensures !IsValidEmail("@example.com")
  {
    assert "@" + "example.com" == "@example.com";
    NothingBeforeAt("example.com");
  }

  lemma EmptyEmailExample()
    ensures !IsValidEmail("")
  {
  }

  // ---------------------------------------------------------------------
  // Sender addresses

  /** `extract_email_from_address` as written: it looks for the first '>'
      anywhere in the trimmed address, so when that '>' comes before the
      first '<' the slice between them is reversed and Rust panics. `None`
      stands for that panic. The source trims only the text between the
      brackets; trimming the result in every case is the same, because the
      whole address is already trimmed. */
  function ExtractEmailAsWritten(address: string): (r: Option<string>)
    ensures r.Some? ==> r.value == ExtractEmail(address)
  {
    match BracketsAsWritten(Trim(address))
    case None => None
    case Some(inner) =>
      BracketsAgree(Trim(address));
      Some(Trim(inner))
  }

  /** The bracket search of the written extraction: the text between the
      first '<' and the first '>', or the whole string when either is missing. */
  function BracketsAsWritten(a: string): Option<string> {
    var open := FindChar(a, '<');
    var close := FindChar(a, '>');
    if open.None? || close.None? then Some(a)
    else if open.value + 1 <= close.value then Some(a[open.value + 1..close.value])
    else None
  }

  /** The panic happens exactly when both brackets occur and the first '>'
      precedes the first '<'. */
  lemma AsWrittenPanics(address: string)
    ensures ExtractEmailAsWritten(address).None? <==>
      (var a := Trim(address);
       FindChar(a, '<').Some? && FindChar(a, '>').Some? && FindChar(a, '>').value < FindChar(a, '<').value)
  {
  }

  /** A sender such as `>a<b@c.d` makes the written extraction panic. */
  lemma AsWrittenPanicExample()
    ensures ExtractEmailAsWritten(">a<b@c.d") == None
  {
    var a := ">a<b@c.d";
    assert ">a" + ['<'] + "b@c.d" == a;
    TrimOfTrimmed(a);
    assert FindChar(a, '>') == Some(0);
    FindCharAfter(">a", '<', "b@c.d");
  }

  /** The corrected extraction takes `>a<b@c.d` whole, since no '>' follows
      its '<'. */
  lemma ReversedSenderTakenWhole()
    ensures ExtractEmail(">a<b@c.d") == ">a<b@c.d"
  {
    var from := ">a<b@c.d";
    assert Trim(from) == from by {
      assert from[0] == '>' && from[|from| - 1] == 'd';
      TrimOfTrimmed(from);
    }
    assert FindChar(from, '<') == Some(2) by {
      assert from == ">a" + ['<'] + "b@c.d";
      FindCharAfter(">a", '<', "b@c.d");
    }
    assert FindChar(from[3..], '>') == None by {
      var rest := from[3..];
      assert forall i :: 0 <= i < |rest| ==> rest[i] != '>';
    }
  }

  /** `>a<b@c.d` passes the address check: one '@', text before it and a
      dot after it. */
  lemma ReversedSenderExample()
    ensures IsValidEmail(">a<b@c.d")
  {
    var from := ">a<b@c.d";
    assert from == ">a<b" + "@" + "c.d" && "c.d"[1] == '.';
    ValidEmailOfParts(">a<b", "c.d");
  }

  /** `a@b.com` is a trimmed, valid address without a comma. */
  lemma PlainRecipientExample()
    ensures IsTrimmed("a@b.com") && ',' !in "a@b.com" && IsValidEmail("a@b.com")
  {
    var to := "a@b.com";
    assert ',' !in to by {
      assert forall i :: 0 <= i < |to| ==> to[i] != ',';
    }
    assert IsValidEmail(to) by {
      assert to == "a" + "@" + "b.com" && "b.com"[1] == '.';
      ValidEmailOfParts("a", "b.com");
    }
    assert to[0] == 'a' && to[|to| - 1] == 'm';
  }

  /** The extraction as evidently intended: the trimmed address, or, when it
      holds a '<' with a '>' somewhere after it, the trimmed text between them. */
  function ExtractEmail(address: string): (r: string)
    ensures |r| <= |address|
  {
    Trim(Brackets(Trim(address)))
  }

  /** The corrected bracket search: the closing '>' is looked for after the
      opening '<'. */
  function Brackets(a: string): (r: string)
    ensures |r| <= |a|
  {
    var open := FindChar(a, '<');
    if open.None? then a
    else
      var rest := a[open.value + 1..];
      var close := FindChar(rest, '>');
      if close.None? then a else rest[..close.value]
  }

  /** The first occurrence is where the character stands with none before it. */
  lemma FirstOccurrence(s: string, c: char, i: nat)
    requires i < |s| && s[i] == c && c !in s[..i]
    ensures FindChar(s, c) == Some(i)
  {
    assert s == s[..i] + [c] + s[i + 1..];
    FindCharAfter(s[..i], c, s[i + 1..]);
  }

  /** A character missing from a string is missing from each of its slices. */
  lemma NotInSlice(s: string, c: char, i: nat, j: nat)
    requires i <= j <= |s| && c !in s[..j]
    ensures c !in s[i..j]
  {
    assert forall x :: 0 <= x < j - i ==> s[i..j][x] == s[..j][i + x];
  }

  /** Where the written bracket search does not panic it finds what the
      corrected one finds. */
  lemma BracketsAgree(a: string)
    requires BracketsAsWritten(a).Some?
    ensures BracketsAsWritten(a).value == Brackets(a)
  {
    var open := FindChar(a, '<');
    if open.Some? {
      var start := open.value;
      var rest := a[start + 1..];
      var close := FindChar(a, '>');
      if close.None? {
        NotInSlice(a, '>', start + 1, |a|);
        assert a[..|a|] == a;
        assert FindChar(rest, '>') == None;
      } else {
        var end := close.value;
        var k := end - (start + 1);
        assert rest[..k] == a[start + 1..end];
        NotInSlice(a, '>', start + 1, end);
        FirstOccurrence(rest, '>', k);
      }
    }
  }

  /** In a `Name <address>` sender, where the name has no '<' and the
      address no '>', the brackets enclose the address. */
  lemma BracketsOfNamed(n: string, email: string)
    requires '<' !in n && '>' !in email
    ensures Brackets(n + ("<" + email + ">")) == email
  {
    var a := n + ['<'] + (email + ['>'] + []);
    assert n + ("<" + email + ">") == a;
    FindCharAfter(n, '<', email + ['>'] + []);
    var rest := a[|n| + 1..];
    assert rest == email + ['>'] + [];
    FindCharAfter(email, '>', []);
    assert rest[..|email|] == email;
  }

  /** Trimming a string whose tail starts and ends with non-whitespace
      trims only the part in front of the tail. */
  lemma TrimBeforeTail(name: string, tail: string)
    requires tail != [] && !IsWhitespace(tail[0]) && !IsWhitespace(tail[|tail| - 1])
    ensures Trim(name + tail) == TrimStart(name) + tail
  {
    TrimBeforeSuffix(name, tail);
    TrimStartBeforeFirst(name, tail);
  }

  /** The corrected extraction of a `Name <address>` sender, where the name has
      no '<' and the address no '>', is the trimmed address. */
  lemma ExtractNamedAddress(name: string, email: string)
    requires '<' !in name && '>' !in email
    ensures ExtractEmail(name + "<" + email + ">") == Trim(email)
  {
    var full := name + "<" + email + ">";
    var tail := "<" + email + ">";
    assert full == name + tail;
    TrimBeforeTail(name, tail);
    var n := TrimStart(name);
    assert '<' !in n by {
      TrimStartDropsWhitespace(name);
      NotInSlice(name, '<', |name| - |n|, |name|);
      assert name[..|name|] == name;
    }
    BracketsOfNamed(n, email);
    assert Brackets(Trim(full)) == email;
  }

  /** An address without brackets is only trimmed. */
  lemma ExtractWithoutBrackets(address: string)
    requires IsTrimmed(address) && '<' !in address
    ensures ExtractEmail(address) == address
  {
    TrimOfTrimmed(address);
  }

  lemma NamedSenderExample()
    ensures ExtractEmail("UiOBot " + "<" + "bot@example.com" + ">") == "bot@example.com"
  {
    var name, email := "UiOBot ", "bot@example.com";
    assert forall i :: 0 <= i < |name| ==> name[i] != '<';
    assert forall i :: 0 <= i < |email| ==> email[i] != '>';
    assert IsTrimmed(email);
    TrimOfTrimmed(email);
    ExtractNamedAddress(name, email);
  }

  lemma BareSenderExample()
    ensures ExtractEmail("bot@example.com") == "bot@example.com"
  {
    ExtractWithoutBrackets("bot@example.com");
  }

  // ---------------------------------------------------------------------
  // Phone numbers

  /** Both normalisers first drop whitespace and dashes. */
  function CleanPhone(s: string): (r: string)
    ensures |r| <= |s|
  {
    if s == [] then []
    else (if IsWhitespace(s[0]) || s[0] == '-' then [] else [s[0]]) + CleanPhone(s[1..])
  }

  predicate IsClean(s: string) {
    forall i :: 0 <= i < |s| ==> !IsWhitespace(s[i]) && s[i] != '-'
  }

  lemma {:induction false} CleanPhoneIsClean(s: string)
    ensures IsClean(CleanPhone(s))
  {
    if s != [] {
      CleanPhoneIsClean(s[1..]);
    }
  }

  /** A clean string is left as it is, so cleaning twice is cleaning once. */
  lemma {:induction false} CleanPhoneOfClean(s: string)
    requires IsClean(s)
    ensures CleanPhone(s) == s
  {
    if s != [] {
      assert IsClean(s[1..]);
      CleanPhoneOfClean(s[1..]);
      assert s == [s[0]] + s[1..];
    }
  }

  /** A number written only with digits after the leading '+'. */
  lemma DigitsAfterPlusAreClean(r: string)
    requires r != [] && r[0] == '+' && AllDigits(r[1..])
    ensures IsClean(r)
  {
    assert forall i :: 1 <= i < |r| ==> r[i] == r[1..][i - 1];
  }

  /** What Twilio can send from: `+1` and ten digits, or `+47` and eight
      digits of which the first is 2 to 9. */
  predicate IsTwilioNumber(r: string) {
    && |r| >= 2 && r[0] == '+' && AllDigits(r[1..])
    && ((|r| == 12 && r[1] == '1') || (|r| == 11 && r[1] == '4' && r[2] == '7' && '2' <= r[3] <= '9'))
  }

  /** `normalize_twilio_phone`. The local part of a Norwegian number has
      eight characters, so its first character always exists. */
  function NormalizeTwilioPhone(phone: string): (r: Option<string>)
    ensures r.Some? ==> r.value == CleanPhone(phone) && IsTwilioNumber(r.value)
  {
    var cleaned := CleanPhone(phone);
    if !StartsWith(cleaned, "+") then None
    else
      var digits := cleaned[1..];
      if !AllDigits(digits) then None
      else if StartsWith(digits, "1") && |digits| == 11 then Some(cleaned)
      else if StartsWith(digits, "47") && |digits| == 10 then
        var local := digits[2..];
        if '2' <= local[0] <= '9' then Some(cleaned) else None
      else None
  }

  /** A phone number is accepted exactly when its cleaned form is a Twilio
      number, and then the cleaned form is the result. */
  lemma TwilioMeaning(phone: string)
    ensures NormalizeTwilioPhone(phone) ==
      (if IsTwilioNumber(CleanPhone(phone)) then Some(CleanPhone(phone)) else None)
  {
    var c := CleanPhone(phone);
    if |c| >= 2 && c[0] == '+' {
      assert c[1..][0] == c[1];
      if |c| == 11 {
        assert c[1..][..2] == [c[1], c[2]];
        assert c[1..][2..][0] == c[3];
      }
    }
  }

  /** A Twilio number is its own normal form. */
  lemma TwilioFixpoint(r: string)
    requires IsTwilioNumber(r)
    ensures NormalizeTwilioPhone(r) == Some(r)
  {
    DigitsAfterPlusAreClean(r);
    CleanPhoneOfClean(r);
    TwilioMeaning(r);
  }

  /** Normalising an accepted number again changes nothing. */
  lemma TwilioIdempotent(phone: string)
    requires NormalizeTwilioPhone(phone).Some?
    ensures NormalizeTwilioPhone(NormalizeTwilioPhone(phone).value) == NormalizeTwilioPhone(phone)
  {
    TwilioMeaning(phone);
    TwilioFixpoint(NormalizeTwilioPhone(phone).value);
  }

  /** A canonical Norwegian number: `+47` and eight digits, the first 2 to 9. */
  predicate IsNorwegianNumber(r: string) {
    |r| == 11 && r[..3] == "+47" && AllDigits(r[3..]) && '2' <= r[3] <= '9'
  }

  /** The digits of a cleaned number, without its leading '+' if it has one. */
  function PhoneDigits(cleaned: string): (d: string)
    ensures |d| <= |cleaned|
  {
    if StartsWith(cleaned, "+") then cleaned[1..] else cleaned
  }

  /** `normalize_norwegian_phone`. The final length and digit checks of the
      source always pass and are kept for fidelity. */
  function NormalizeNorwegianPhone(phone: string): (r: Option<string>)
    ensures r.Some? ==> IsNorwegianNumber(r.value)
  {
    var cleaned := CleanPhone(phone);
    var hasPlus := StartsWith(cleaned, "+");
    var digits := PhoneDigits(cleaned);
    if !AllDigits(digits) then None
    else
      var eight :=
        if hasPlus && StartsWith(digits, "47") && |digits| == 10 then Some(digits[2..])
        else if !hasPlus && StartsWith(digits, "47") && |digits| == 10 then Some(digits[2..])
        else if |digits| == 8 then Some(digits)
        else None;
      match eight
      case None => None
      case Some(e) =>
        if |e| != 8 || !AllDigits(e) then None
        else if !('2' <= e[0] <= '9') then None
        else
          var r := "+47" + e;
          assert r[3..] == e;
          Some(r)
  }

  /** Which inputs are accepted, stated without the branch structure: the
      digits (after an optional '+') are eight digits, or `47` and eight
      digits, and the eight-digit subscriber number starts with 2 to 9. The
      result is `+47` and that subscriber number. */
  lemma NorwegianMeaning(phone: string)
    ensures
      var d := PhoneDigits(CleanPhone(phone));
      NormalizeNorwegianPhone(phone) ==
        if AllDigits(d) && (|d| == 8 || (|d| == 10 && d[0] == '4' && d[1] == '7')) && '2' <= d[|d| - 8] <= '9'
        then Some("+47" + d[|d| - 8..])
        else None
  {
    var d := PhoneDigits(CleanPhone(phone));
    if !AllDigits(d) {
    } else if |d| == 10 {
      assert d[..2] == [d[0], d[1]];
      assert d[2..][0] == d[2];
    } else if |d| == 8 {
      assert d[|d| - 8..] == d;
    }
  }

  /** A canonical Norwegian number is its own normal form. */
  lemma NorwegianFixpoint(r: string)
    requires IsNorwegianNumber(r)
    ensures NormalizeNorwegianPhone(r) == Some(r)
  {
    assert r[0] == '+' && r[1] == '4' && r[2] == '7' by {
      assert r[..3][0] == r[0] && r[..3][1] == r[1] && r[..3][2] == r[2];
    }
    assert AllDigits(r[1..]) by {
      assert forall i :: 3 <= i < |r| ==> r[i] == r[3..][i - 3];
      assert forall i :: 1 <= i < |r| ==> r[i] == r[1..][i - 1];
    }
    DigitsAfterPlusAreClean(r);
    CleanPhoneOfClean(r);
    var d := PhoneDigits(r);
    assert d == r[1..];
    assert d[|d| - 8..] == r[3..];
    assert r == "+47" + r[3..];
    NorwegianMeaning(r);
  }

  /** Normalising a normalised Norwegian number changes nothing. */
  lemma NorwegianIdempotent(phone: string)
    requires NormalizeNorwegianPhone(phone).Some?
    ensures NormalizeNorwegianPhone(NormalizeNorwegianPhone(phone).value) == NormalizeNorwegianPhone(phone)
  {
    NorwegianFixpoint(NormalizeNorwegianPhone(phone).value);
  }

  /** Every recipient number the bot keeps is also a number Twilio accepts. */
  lemma NorwegianIsTwilio(r: string)
    requires IsNorwegianNumber(r)
    ensures IsTwilioNumber(r)
  {
    assert r[..3][0] == r[0] && r[..3][1] == r[1] && r[..3][2] == r[2];
    assert forall i :: 3 <= i < |r| ==> r[i] == r[3..][i - 3];
    assert forall i :: 1 <= i < |r| ==> r[i] == r[1..][i - 1];
  }

  /** Cleaning works character by character. */
  lemma {:induction false} CleanPhoneConcat(a: string, b: string)
    ensures CleanPhone(a + b) == CleanPhone(a) + CleanPhone(b)
  {
    if a == [] {
      assert a + b == b;
    } else {
      assert (a + b)[0] == a[0];
      assert (a + b)[1..] == a[1..] + b;
      CleanPhoneConcat(a[1..], b);
    }
  }

  /** Digits need no cleaning. */
  lemma DigitsAreClean(d: string)
    requires AllDigits(d)
    ensures CleanPhone(d) == d
  {
    CleanPhoneOfClean(d);
  }

  /** Eight digits are accepted exactly when the first is 2 to 9. */
  lemma NorwegianEightDigits(e: string)
    requires |e| == 8 && AllDigits(e)
    ensures NormalizeNorwegianPhone(e) == if '2' <= e[0] <= '9' then Some("+47" + e) else None
  {
    DigitsAreClean(e);
    assert IsDigit(e[0]);
    assert PhoneDigits(e) == e;
    NorwegianMeaning(e);
    assert e[|e| - 8..] == e;
  }

  /** Ten digits after a '+' that do not start with 47 are rejected. */
  lemma NorwegianForeignCode(d: string)
    requires |d| == 10 && AllDigits(d) && !(d[0] == '4' && d[1] == '7')
    ensures NormalizeNorwegianPhone("+" + d) == None
  {
    var p := "+" + d;
    assert forall i :: 1 <= i < |p| ==> p[i] == d[i - 1];
    CleanPhoneOfClean(p);
    assert p[1..] == d;
    NorwegianMeaning(p);
  }

  lemma NorwegianEightDigitExample()
    ensures NormalizeNorwegianPhone("41234567") == Some("+4741234567")
  {
    var e := "41234567";
    assert "+47" + e == "+4741234567";
    assert AllDigits(e);
    NorwegianEightDigits(e);
  }

  /** Only the cleaned form of a number matters. */
  lemma NorwegianOfCleaned(p: string, q: string)
    requires CleanPhone(p) == CleanPhone(q)
    ensures NormalizeNorwegianPhone(p) == NormalizeNorwegianPhone(q)
  {
  }

  /** Dashes between digit groups are dropped. */
  lemma CleanDashed(a: string, b: string, c: string)
    requires AllDigits(a) && AllDigits(b) && AllDigits(c)
    ensures CleanPhone(a + "-" + b + "-" + c) == a + b + c
  {
    assert CleanPhone("-") == [];
    DigitsAreClean(a);
    DigitsAreClean(b);
    DigitsAreClean(c);
    var x := a + "-";
    CleanPhoneConcat(a, "-");
    assert CleanPhone(x) == a by { assert a + [] == a; }
    var y := x + b;
    CleanPhoneConcat(x, b);
    var z := y + "-";
    CleanPhoneConcat(y, "-");
    assert CleanPhone(z) == a + b by { assert (a + b) + [] == a + b; }
    CleanPhoneConcat(z, c);
  }

  lemma NorwegianDashedExample()
    ensures NormalizeNorwegianPhone("412" + "-" + "34" + "-" + "567") == Some("+4741234567")
  {
    assert "412" + "34" + "567" == "41234567";
    CleanDashed("412", "34", "567");
    DigitsAreClean("41234567");
    NorwegianOfCleaned("412" + "-" + "34" + "-" + "567", "41234567");
    NorwegianEightDigitExample();
  }

  lemma NorwegianLeadingOneExample()
    ensures NormalizeNorwegianPhone("11234567") == None
  {
    var e := "11234567";
    assert AllDigits(e);
    NorwegianEightDigits(e);
  }

  lemma NorwegianForeignExample()
    ensures NormalizeNorwegianPhone("+" + "4641234567") == None
  {
    var d := "4641234567";
    assert AllDigits(d);
    NorwegianForeignCode(d);
  }

  lemma TwilioUnitedStatesExample()
    ensures NormalizeTwilioPhone("+12025551234") == Some("+12025551234")
  {
    var r := "+12025551234";
    assert AllDigits(r[1..]);
    TwilioFixpoint(r);
  }

  /** A clean number without the leading '+' is rejected. */
  lemma TwilioNeedsPlus(p: string)
    requires p != [] && AllDigits(p)
    ensures NormalizeTwilioPhone(p) == None
  {
    DigitsAreClean(p);
    assert IsDigit(p[0]);
  }

  lemma TwilioMissingPlusExample()
    ensures NormalizeTwilioPhone("4741234567") == None
  {
    var p := "4741234567";
    assert AllDigits(p);
    TwilioNeedsPlus(p);
  }

  /** Only 11 and 12 characters are lengths Twilio numbers have. */
  lemma TwilioLength(d: string)
    requires AllDigits(d) && |d| != 10 && |d| != 11
    ensures NormalizeTwilioPhone("+" + d) == None
  {
    var p := "+" + d;
    assert forall i :: 1 <= i < |p| ==> p[i] == d[i - 1];
    CleanPhoneOfClean(p);
    TwilioMeaning(p);
  }

  lemma TwilioUnitedKingdomExample()
    ensures NormalizeTwilioPhone("+" + "442071234567") == None
  {
    var d := "442071234567";
    assert AllDigits(d);
    TwilioLength(d);
  }
}
