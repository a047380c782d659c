/**
  The `validate` callbacks of the setup wizard, as decisions over the
  results of the checks they make. inquirer accepts an answer only when
  its validator yields `true`; any other outcome shows a message (or
  nothing) and asks the same question again.
*/
module SetupValidators {
  import opened Options

  /** What a validator yields: `true`; a message string; a value that is
      neither (the zone validator's `undefined`, shown as no message); or a
      rejected promise, whose error inquirer shows. */
  datatype Verdict = Accept | Reject(message: string) | Silent | Raised

  // ---------------------------------------------------------------------
  // Domain (lines 46-64)

  /** The DNS lookup of the entered name: it fails, or it answers with a
      list of addresses. */
  datatype DnsResult = DnsFailed | DnsAnswers(addresses: seq<string>)

  /** The public IPv4 lookup. */
  datatype PublicIp = IpFailed | Ip(address: string)

  const InvalidDomain := "Please provide a valid domain"
  const PointDomain := "Make sure your domain points to this servers IP. Your IP: "

  /** `wellFormed` is the result of the domain pattern on the lower-cased
      value. A lookup that fails, or an answer list without a first
      address, lands in the catch block, which reads `ipv4` outside its
      scope and so throws. */
  function DomainVerdict(wellFormed: bool, dns: DnsResult, ip: PublicIp): Verdict
  {
    if !wellFormed then Reject(InvalidDomain)
    else if dns.DnsFailed? || ip.IpFailed? || |dns.addresses| == 0 then Raised
    else if dns.addresses[0] == ip.address then Accept
    else Reject(PointDomain + ip.address)
  }

  /** A malformed domain is refused with the same message whatever the
      lookups would give, so no lookup matters; a well-formed one whose
      lookups succeed is accepted exactly when its first address is the
      public IP, and otherwise the message ends with that IP; when a lookup
      fails or answers no address, the validator throws. */
  lemma DomainVerdictSpec(wellFormed: bool, dns: DnsResult, ip: PublicIp)
    ensures !wellFormed ==> DomainVerdict(wellFormed, dns, ip) == Reject(InvalidDomain)
    ensures wellFormed && dns.DnsAnswers? && |dns.addresses| > 0 && ip.Ip? ==>
      (DomainVerdict(wellFormed, dns, ip) == Accept <==> dns.addresses[0] == ip.address)
    ensures wellFormed && dns.DnsAnswers? && |dns.addresses| > 0 && ip.Ip? && dns.addresses[0] != ip.address ==>
      var m := DomainVerdict(wellFormed, dns, ip).message;
      |m| >= |ip.address| && m[|m| - |ip.address|..] == ip.address && m[..|PointDomain|] == PointDomain
    ensures DomainVerdict(wellFormed, dns, ip) == Accept ==> wellFormed && dns.DnsAnswers? && |dns.addresses| > 0
    ensures wellFormed && (dns.DnsFailed? || ip.IpFailed? || |dns.addresses| == 0) ==>
      DomainVerdict(wellFormed, dns, ip) == Raised
  {
    if wellFormed && dns.DnsAnswers? && |dns.addresses| > 0 && ip.Ip? && dns.addresses[0] != ip.address {
      var m := PointDomain + ip.address;
      assert m[|m| - |ip.address|..] == ip.address;
    }
  }

  /** "example.com" answering 203.0.113.5 on a server whose public IP is
      203.0.113.5 is accepted; on one whose IP is 198.51.100.7 it is
      refused with that IP in the message. */
  lemma DomainExample()
    ensures DomainVerdict(true, DnsAnswers(["203.0.113.5"]), Ip("203.0.113.5")) == Accept
    ensures DomainVerdict(true, DnsAnswers(["203.0.113.5"]), Ip("198.51.100.7")) == Reject(PointDomain + "198.51.100.7")
  {
  }

  // ---------------------------------------------------------------------
  // CloudFlare email (lines 73-80) and API key (lines 89-108)

  /** `matches` is the result of the email pattern on the lower-cased value. */
  function EmailVerdict(matches: bool): (v: Verdict)
    ensures v == Accept <==> matches
    ensures v != Accept ==> v == Reject("Invalid Email")
  {
    if matches then Accept else Reject("Invalid Email")
  }

  /** The `GET /user` call: it fails, or it answers with `success`. */
  datatype AccountCheck = AccountFailed | AccountAnswer(success: bool)

  const InvalidKey := "The API Key is not valid. Make sure your email is also correct"

  function KeyVerdict(check: AccountCheck): (v: Verdict)
    ensures v == Accept <==> check == AccountAnswer(true)
    ensures v != Accept ==> v == Reject(InvalidKey)
  {
    match check
    case AccountFailed => Reject(InvalidKey)
    case AccountAnswer(ok) => if ok then Accept else Reject(InvalidKey)
  }

  /** A refused key and a failed call cannot be told apart. */
  lemma KeyFailuresAlike()
    ensures KeyVerdict(AccountFailed) == KeyVerdict(AccountAnswer(false))
  {
  }

  // ---------------------------------------------------------------------
  // CloudFlare zone (lines 117-146)

  /** The `GET /zones/<id>/dns_records` call: it fails, or it answers with
      `success` and the names of the records it lists. */
  datatype ZoneCheck = ZoneFailed | ZoneAnswer(success: bool, recordNames: seq<string>)

  const InvalidZone := "DNS Zone ID not valid"

  /** The flag-and-break loop of lines 130-136. */
  method DomainExists(recordNames: seq<string>, domain: string) returns (found: bool)
    ensures found <==> domain in recordNames
  {
    found := false;
    var i := 0;
    while i < |recordNames|
      invariant 0 <= i <= |recordNames|
      invariant !found && domain !in recordNames[..i]
    {
      if recordNames[i] == domain {
        found := true;
        break;
      }
      i := i + 1;
      assert recordNames[..i] == recordNames[..i - 1] + [recordNames[i - 1]];
    }
    assert !found ==> recordNames[..i] == recordNames;
  }

  /** The zone validator for the `domain` answered before it. When
      `success` is false the function falls off its end and yields
      `undefined`. */
  function ZoneVerdict(check: ZoneCheck, domain: string): Verdict
  {
    match check
    case ZoneFailed => Reject(InvalidZone)
    case ZoneAnswer(ok, names) =>
      if !ok then Silent
      else if domain in names then Accept
      else Reject(InvalidZone)
  }

  /** The zone is accepted exactly when the call succeeds and lists a
      record named after the domain; a failed call and a missing record give
      the same message, and an unsuccessful answer gives none. */
  lemma ZoneVerdictSpec(check: ZoneCheck, domain: string)
    ensures ZoneVerdict(check, domain) == Accept <==>
      check.ZoneAnswer? && check.success && exists i :: 0 <= i < |check.recordNames| && check.recordNames[i] == domain
    ensures ZoneVerdict(check, domain) == Silent <==> check.ZoneAnswer? && !check.success
    ensures ZoneVerdict(check, domain) !in {Accept, Silent} ==> ZoneVerdict(check, domain) == Reject(InvalidZone)
  {
    if check.ZoneAnswer? && check.success && domain in check.recordNames {
      var i :| 0 <= i < |check.recordNames| && check.recordNames[i] == domain;
    }
  }

  /** The validator as the source runs it, with its loop. */
  method CheckZone(check: ZoneCheck, domain: string) returns (v: Verdict)
    ensures v == ZoneVerdict(check, domain)
  {
    match check {
      case ZoneFailed =>
        v := Reject(InvalidZone);
      case ZoneAnswer(ok, names) =>
        if !ok {
          v := Silent;
        } else {
          var domainExists := DomainExists(names, domain);
          v := if domainExists then Accept else Reject(InvalidZone);
        }
    }
  }

  // ---------------------------------------------------------------------
  // Passwords (lines 240-310)

  const ShortPassword := "Password must be more then 12 characters"

  /** JavaScript's `length` of a string: its UTF-16 code units. A character
      outside the Basic Multilingual Plane takes a surrogate pair, two
      units; every other character takes one. */
  function Utf16Length(value: string): (n: nat)
    ensures |value| <= n <= 2 * |value|
    ensures (forall i :: 0 <= i < |value| ==> (value[i] as int) < 0x10000) ==> n == |value|
  {
    if value == [] then 0
    else (if value[0] as int >= 0x10000 then 2 else 1) + Utf16Length(value[1..])
  }

  /** The redis, mysql, JWT and session password check. */
  function PasswordVerdict(value: string): (v: Verdict)
    ensures v == Accept <==> Utf16Length(value) >= 12
    ensures v != Accept ==> v == Reject(ShortPassword)
  {
    if Utf16Length(value) < 12 then Reject(ShortPassword) else Accept
  }

  /** The storage encryption key check, which reuses the same message. */
  function EncryptionKeyVerdict(value: string): (v: Verdict)
    ensures v == Accept <==> 20 <= Utf16Length(value) <= 64
    ensures v != Accept ==> v == Reject(ShortPassword)
  {
    if Utf16Length(value) >= 20 && Utf16Length(value) <= 64 then Accept else Reject(ShortPassword)
  }

  /** A key that passes the encryption check passes the password check;
      the message names 12 characters even for a key of 12 to 19, which is
      refused. */
  lemma EncryptionKeyStricter(value: string)
    ensures EncryptionKeyVerdict(value) == Accept ==> PasswordVerdict(value) == Accept
    ensures 12 <= Utf16Length(value) < 20 ==>
      PasswordVerdict(value) == Accept && EncryptionKeyVerdict(value) == Reject(ShortPassword)
  {
  }

  /** Six emoji are six characters but twelve code units: the password
      check accepts them. */
  lemma SurrogatePairsCount()
    ensures var value := "\U{1F600}\U{1F600}\U{1F600}\U{1F600}\U{1F600}\U{1F600}";
      |value| == 6 && PasswordVerdict(value) == Accept
  {
    var value := "\U{1F600}\U{1F600}\U{1F600}\U{1F600}\U{1F600}\U{1F600}";
    assert Utf16Length(value[5..]) == 2;
    assert Utf16Length(value[4..]) == 4;
    assert Utf16Length(value[3..]) == 6;
    assert Utf16Length(value[2..]) == 8;
    assert Utf16Length(value[1..]) == 10;
  }

  // ---------------------------------------------------------------------
  // Asking one question until it is answered

  /** The operator's attempts at one question, each with its verdict:
      the index of the first accepted one, or None when none is. */
  function FirstAccepted(verdicts: seq<Verdict>): (r: Option<nat>)
    ensures r.Some? ==> r.value < |verdicts| && verdicts[r.value] == Accept
    ensures r.Some? ==> forall i :: 0 <= i < r.value ==> verdicts[i] != Accept
    ensures r.None? ==> forall i :: 0 <= i < |verdicts| ==> verdicts[i] != Accept
  {
    if verdicts == [] then None
    else if verdicts[0] == Accept then Some(0)
    else match FirstAccepted(verdicts[1..])
      case None => None
      case Some(k) => Some(k + 1)
  }

  /** The messages shown before the accepted attempt (or all of them when
      none is accepted), one per attempt with a message. A `Raised` verdict
      shows the thrown error's own text, which the model does not carry,
      so it adds no entry here. */
  function Shown(verdicts: seq<Verdict>): (r: seq<string>)
    ensures |r| <= |verdicts|
  {
    if verdicts == [] || verdicts[0] == Accept then []
    else (if verdicts[0].Reject? then [verdicts[0].message] else []) + Shown(verdicts[1..])
  }

  /** Attempts after the accepted one are never made: whatever follows it,
      the answer and the messages are the same. */
  lemma {:induction false} AcceptedEndsQuestion(verdicts: seq<Verdict>, rest: seq<Verdict>)
    requires FirstAccepted(verdicts).Some?
    ensures FirstAccepted(verdicts + rest) == FirstAccepted(verdicts)
    ensures Shown(verdicts + rest) == Shown(verdicts)
  {
    if verdicts[0] != Accept {
      assert (verdicts + rest)[1..] == verdicts[1..] + rest;
      AcceptedEndsQuestion(verdicts[1..], rest);
    }
  }
}
