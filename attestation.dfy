/**
 * The bot-mitigation attestation policy of the wallet: which proof requests
 * ask for an attestation credential, which stored attestation credentials are
 * still valid (and the deletion of the others), and whether the agent's
 * credential match can satisfy a request.
 *
 * The agent framework is not modelled: what `getFormatData` and `getAll`
 * return is input data, `getCredentialsForRequest` is a function parameter,
 * and the credential store is a class whose `DeleteById` logs each call.
 */
module Attestation {
  import opened Wrappers
  import opened JsRuntime

  /** The source's `msInDay`, one day of `Date` time. */
  const MsInDay: int := MsPerDay

  /** Attestation credentials older than this many (rounded-up) days are deleted. */
  const MaxAgeDays: int := 14

  /** The closed allow-list of attestation credential-definition ids. */
  const AttestationCredDefIds: seq<string> := [
    "NXp6XcGeCR2MviWuY51Dva:3:CL:33557:bcwallet",
    "RycQpZ9b4NaXuT5ZGjXkUE:3:CL:120:bcwallet",
    "XqaRXJt4sXE6TRpfGpVbGw:3:CL:655:bcwallet"
  ]

  /** The referent under which proof requests ask for the attestation attributes. */
  const AttestationReferent: string := "attestationInfo"

  /** The credential attribute holding the issue date as `YYYYMMDD`. */
  const IssueDateAttribute: string := "issue_date_dateint"

  predicate IsAttestationCredDefId(id: string)
  {
    id in AttestationCredDefIds
  }

  // ---------------------------------------------------------------------------
  // Proof requests as `getFormatData` returns them
  // ---------------------------------------------------------------------------

  /** One restriction of a requested attribute group; it need not name a `cred_def_id`. */
  datatype Restriction = Restriction(credDefId: Option<string>)

  datatype AttributeGroup = AttributeGroup(names: seq<string>, restrictions: Option<seq<Restriction>>)

  /** The body of one proof sub-format: referent name to requested attribute group. */
  datatype SubFormatRequest = SubFormatRequest(requestedAttributes: Option<map<string, AttributeGroup>>)

  /** The two sub-formats: `indy` (legacy) and `anoncreds` (current). */
  datatype ProofRequest = ProofRequest(indy: Nullish<SubFormatRequest>, anoncreds: Nullish<SubFormatRequest>)

  /** What `agent.proofs.getFormatData(proofId)` returns; only `request` is read. */
  datatype FormatData = FormatData(request: Option<ProofRequest>)

  datatype SubFormat = Indy | AnonCreds

  function SubRequest(req: ProofRequest, sub: SubFormat): Nullish<SubFormatRequest>
  {
    match sub
    case Indy => req.indy
    case AnonCreds => req.anoncreds
  }

  /** `format.request?.<sub> !== undefined`: the request declares that sub-format. */
  predicate Declares(format: FormatData, sub: SubFormat)
  {
    format.request.Some? && SubRequest(format.request.value, sub).IsNotUndefined()
  }

  // ---------------------------------------------------------------------------
  // Format Resolver
  // ---------------------------------------------------------------------------

  datatype FormatOptions = FormatOptions(filterByNonRevocationRequirements: bool)

  /** The sparse `proofFormats` object: `None` is an absent key, not an undefined value. */
  datatype ProofFormatsConfig = ProofFormatsConfig(indy: Option<FormatOptions>, anoncreds: Option<FormatOptions>)

  function ConfigFor(cfg: ProofFormatsConfig, sub: SubFormat): Option<FormatOptions>
  {
    match sub
    case Indy => cfg.indy
    case AnonCreds => cfg.anoncreds
  }

  /**
   * Builds the configuration for `getCredentialsForRequest`: a key per
   * sub-format the request declares, each carrying the given flag. The object
   * literal is always truthy, so the source's "Unable to lookup proof request
   * format" error cannot be thrown and the model has no error path here.
   */
  function FormatForProofWithId(format: FormatData, filterByNonRevocationRequirements: bool := false): (cfg: ProofFormatsConfig)
    ensures forall sub :: ConfigFor(cfg, sub).Some? <==> Declares(format, sub)
    ensures forall sub :: ConfigFor(cfg, sub).Some? ==>
      ConfigFor(cfg, sub).value.filterByNonRevocationRequirements == filterByNonRevocationRequirements
  {
    var isAnonCreds := format.request.Some? && format.request.value.anoncreds.IsNotUndefined();
    var isIndy := format.request.Some? && format.request.value.indy.IsNotUndefined();
    var options := FormatOptions(filterByNonRevocationRequirements);
    ProofFormatsConfig(
      indy := if isIndy then Some(options) else None,
      anoncreds := if isAnonCreds then Some(options) else None)
  }

  // ---------------------------------------------------------------------------
  // Attestation Detector
  // ---------------------------------------------------------------------------

  predicate RestrictsToAttestation(r: Restriction)
  {
    r.credDefId.Some? && IsAttestationCredDefId(r.credDefId.value)
  }

  /** `restrictions.some(r => attestationCredDefIds.includes(r.cred_def_id))` */
  function SomeAttestationRestriction(rs: seq<Restriction>): (b: bool)
    ensures b <==> exists i :: 0 <= i < |rs| && RestrictsToAttestation(rs[i])
  {
    if rs == [] then false
    else RestrictsToAttestation(rs[0]) || SomeAttestationRestriction(rs[1..])
  }

  /** The detector reads `anoncreds` when that slot is truthy, `indy` otherwise. */
  function FormatToUse(format: FormatData): SubFormat
  {
    if format.request.Some? && format.request.value.anoncreds.IsTruthy() then AnonCreds else Indy
  }

  /**
   * `format.request?.[formatToUse]?.requested_attributes?.attestationInfo?.restrictions`:
   * `None` as soon as one level is missing.
   */
  function AttestationRestrictions(format: FormatData): (rs: Option<seq<Restriction>>)
  {
    if format.request.None? then None
    else
      var sub := SubRequest(format.request.value, FormatToUse(format));
      if !sub.IsTruthy() || sub.value.requestedAttributes.None? then None
      else if AttestationReferent !in sub.value.requestedAttributes.value then None
      else sub.value.requestedAttributes.value[AttestationReferent].restrictions
  }

  /**
   * Whether the proof request asks for an attestation credential: some
   * restriction of its `attestationInfo` group names an allow-listed
   * credential definition. A missing level yields false, never an error.
   */
  function IsProofRequestingAttestation(format: FormatData): (b: bool)
    ensures b <==> (AttestationRestrictions(format).Some? &&
      exists i :: 0 <= i < |AttestationRestrictions(format).value| &&
        RestrictsToAttestation(AttestationRestrictions(format).value[i]))
  {
    var rs := AttestationRestrictions(format);
    rs.Some? && SomeAttestationRestriction(rs.value)
  }

  /** When `anoncreds` is present the `indy` part of the request is never consulted. */
  lemma DetectorPrefersAnonCreds(anoncreds: SubFormatRequest, indy1: Nullish<SubFormatRequest>, indy2: Nullish<SubFormatRequest>)
    ensures IsProofRequestingAttestation(FormatData(Some(ProofRequest(indy1, Defined(anoncreds)))))
        == IsProofRequestingAttestation(FormatData(Some(ProofRequest(indy2, Defined(anoncreds)))))
  {
  }

  /** When `anoncreds` is `null` or `undefined` the detector reads `indy` alone. */
  lemma DetectorFallsBackToIndy(indy: Nullish<SubFormatRequest>, anoncreds: Nullish<SubFormatRequest>)
    requires !anoncreds.Defined?
    ensures IsProofRequestingAttestation(FormatData(Some(ProofRequest(indy, anoncreds))))
        == IsProofRequestingAttestation(FormatData(Some(ProofRequest(indy, Undefined))))
  {
  }

  /**
   * A request whose `attestationInfo` group, under the sub-format the
   * detector reads, restricts to an allow-listed id is detected, whatever
   * its other referents and whatever the other slot holds (for `indy`, the
   * `anoncreds` slot must be `null` or `undefined` for `indy` to be read).
   */
  lemma DetectsAllowListedRestriction(sub: SubFormat, body: SubFormatRequest, other: Nullish<SubFormatRequest>, rs: seq<Restriction>, i: nat)
    requires body.requestedAttributes.Some? && AttestationReferent in body.requestedAttributes.value
    requires body.requestedAttributes.value[AttestationReferent].restrictions == Some(rs)
    requires sub == Indy ==> !other.Defined?
    requires i < |rs| && RestrictsToAttestation(rs[i])
    ensures var req := if sub == AnonCreds then ProofRequest(other, Defined(body)) else ProofRequest(Defined(body), other);
      IsProofRequestingAttestation(FormatData(Some(req)))
  {
    var req := if sub == AnonCreds then ProofRequest(other, Defined(body)) else ProofRequest(Defined(body), other);
    assert AttestationRestrictions(FormatData(Some(req))) == Some(rs);
  }

  /**
   * The sub-format the detector found the attestation restriction under is
   * one the resolver selects, whatever the flag.
   */
  lemma DetectedFormatIsSelected(format: FormatData, filterByNonRevocationRequirements: bool)
    requires IsProofRequestingAttestation(format)
    ensures ConfigFor(FormatForProofWithId(format, filterByNonRevocationRequirements), FormatToUse(format))
      == Some(FormatOptions(filterByNonRevocationRequirements))
  {
    var sub := FormatToUse(format);
    assert SubRequest(format.request.value, sub).Defined?;
    assert Declares(format, sub);
  }

  // ---------------------------------------------------------------------------
  // Satisfiability Checker
  // ---------------------------------------------------------------------------

  datatype AttributeMatch = AttributeMatch(credentialId: string)

  /** One sub-format's answer: referent name to the stored credentials that match it. */
  datatype CredentialsForRequest = CredentialsForRequest(attributes: map<string, seq<AttributeMatch>>)

  datatype ProofFormatsResult = ProofFormatsResult(indy: Nullish<CredentialsForRequest>, anoncreds: Nullish<CredentialsForRequest>)

  /** What `agent.proofs.getCredentialsForRequest` resolves to. */
  datatype RequestCredentials = RequestCredentials(proofFormats: ProofFormatsResult)

  /** Reading `.length` of an `attestationInfo` list the agent did not return. */
  datatype Error = TypeError

  /** `format.attributes.attestationInfo.length !== 0` for one sub-format's answer. */
  function HasAttestationMatch(c: CredentialsForRequest): Result<bool, Error>
  {
    if AttestationReferent in c.attributes then Success(|c.attributes[AttestationReferent]| != 0)
    else Failure(TypeError)
  }

  /**
   * Whether the wallet can satisfy the request with an attestation credential:
   * the agent is asked for matches under the resolver's configuration (with the
   * flag forwarded, default true), and the `attestationInfo` list of the
   * `anoncreds` answer, or else the `indy` answer, must be non-empty.
   */
  function CredentialsMatchForAttestationProof(
    format: FormatData,
    getCredentialsForRequest: ProofFormatsConfig -> Option<RequestCredentials>,
    filterByNonRevocationRequirements: bool := true): (r: Result<bool, Error>)
    ensures var answer := getCredentialsForRequest(FormatForProofWithId(format, filterByNonRevocationRequirements));
      && (answer.None? ==> r == Success(false))
      && (answer.Some? && !answer.value.proofFormats.anoncreds.Defined? && !answer.value.proofFormats.indy.Defined?
          ==> r == Success(false))
      && (answer.Some? && answer.value.proofFormats.anoncreds.Defined?
          ==> r == HasAttestationMatch(answer.value.proofFormats.anoncreds.value))
      && (answer.Some? && !answer.value.proofFormats.anoncreds.Defined? && answer.value.proofFormats.indy.Defined?
          ==> r == HasAttestationMatch(answer.value.proofFormats.indy.value))
    ensures r == Success(true) <==>
      exists sub: SubFormat, c: CredentialsForRequest ::
        && UsedAnswer(getCredentialsForRequest(FormatForProofWithId(format, filterByNonRevocationRequirements)), sub) == Defined(c)
        && AttestationReferent in c.attributes && c.attributes[AttestationReferent] != []
  {
    var proofFormats := FormatForProofWithId(format, filterByNonRevocationRequirements);
    var credentials := getCredentialsForRequest(proofFormats);
    if credentials.None? then Success(false)
    else
      var chosen := Coalesce(credentials.value.proofFormats.anoncreds, credentials.value.proofFormats.indy);
      if !chosen.IsTruthy() then Success(false)
      else
        var sub := if credentials.value.proofFormats.anoncreds.Defined? then AnonCreds else Indy;
        assert UsedAnswer(credentials, sub) == chosen;
        HasAttestationMatch(chosen.value)
  }

  /** An agent answer with neither sub-format (`proofFormats: {}`) means no match, whatever the request. */
  lemma EmptyProofFormatsIsFalse(format: FormatData, filterByNonRevocationRequirements: bool)
    ensures CredentialsMatchForAttestationProof(format,
      _ => Some(RequestCredentials(ProofFormatsResult(Undefined, Undefined))),
      filterByNonRevocationRequirements) == Success(false)
  {
  }

  /** Without an answer from the agent there is no match. */
  lemma NoAnswerIsFalse(format: FormatData, filterByNonRevocationRequirements: bool)
    ensures CredentialsMatchForAttestationProof(format, _ => None, filterByNonRevocationRequirements) == Success(false)
  {
  }

  /** The answer for `sub` when it is the one `anoncreds ?? indy` picks, `Undefined` otherwise. */
  function UsedAnswer(answer: Option<RequestCredentials>, sub: SubFormat): Nullish<CredentialsForRequest>
  {
    if answer.None? then Undefined
    else match sub
      case AnonCreds => answer.value.proofFormats.anoncreds
      case Indy => if answer.value.proofFormats.anoncreds.Defined? then Undefined else answer.value.proofFormats.indy
  }

  // ---------------------------------------------------------------------------
  // Stored credentials and the validity policy
  // ---------------------------------------------------------------------------

  datatype CredentialAttribute = CredentialAttribute(name: string, value: string)

  /**
   * A stored credential as far as the policy reads it: its id, the
   * credential-definition id from its AnonCreds metadata, its attribute list
   * and whether a revocation notification is attached.
   */
  datatype CredentialRecord = CredentialRecord(
    id: string,
    credentialDefinitionId: Option<string>,
    credentialAttributes: Option<seq<CredentialAttribute>>,
    revocationNotification: bool)

  /** The instant of the pass and the offset of the local zone from UTC, in milliseconds. */
  datatype Clock = Clock(nowMs: int, utcOffsetMs: int)

  /** `attrs.find(a => a.name === name)`: the first attribute with that name. */
  function FindAttribute(attrs: seq<CredentialAttribute>, name: string): (r: Option<CredentialAttribute>)
    ensures r.None? <==> forall i :: 0 <= i < |attrs| ==> attrs[i].name != name
    ensures r.Some? ==> exists i :: (0 <= i < |attrs| && attrs[i] == r.value && r.value.name == name &&
      forall j :: 0 <= j < i ==> attrs[j].name != name)
  {
    if attrs == [] then None
    else if attrs[0].name == name then Some(attrs[0])
    else
      var rest := FindAttribute(attrs[1..], name);
      assert rest.Some? ==> exists i :: (0 <= i < |attrs[1..]| && attrs[1..][i] == rest.value &&
        forall j :: 0 <= j < i ==> attrs[1..][j].name != name);
      if rest.Some? then
        var i :| 0 <= i < |attrs[1..]| && attrs[1..][i] == rest.value && rest.value.name == name &&
          forall j :: 0 <= j < i ==> attrs[1..][j].name != name;
        assert attrs[i + 1] == rest.value;
        rest
      else rest
  }

  /** `credentialAttributes?.find(a => a.name === 'issue_date_dateint')?.value`, `None` when falsy. */
  function IssueDateOf(r: CredentialRecord): Option<string>
  {
    if r.credentialAttributes.None? then None
    else
      var attr := FindAttribute(r.credentialAttributes.value, IssueDateAttribute);
      if attr.None? || attr.value.value == "" then None else Some(attr.value.value)
  }

  /** The credential's definition id is present, non-empty and allow-listed. */
  predicate IsAttestationCredential(r: CredentialRecord)
  {
    r.credentialDefinitionId.Some? && r.credentialDefinitionId.value != "" &&
    IsAttestationCredDefId(r.credentialDefinitionId.value)
  }

  /**
   * Local midnight of the `YYYYMMDD` date in milliseconds since the epoch;
   * `None` is `NaN`, which a non-numeric year, month or day slice produces.
   */
  function IssueInstant(date: string, utcOffsetMs: int): (t: Option<int>)
    ensures t.Some? <==> AllDigits(Slice(date, 0, 4)) && AllDigits(Slice(date, 4, 6)) && AllDigits(Slice(date, 6, 8))
  {
    var year := ToNumber(Slice(date, 0, 4));
    var month := ToNumber(Slice(date, 4, 6));
    var day := ToNumber(Slice(date, 6, 8));
    if year.None? || month.None? || day.None? then None
    else Some(LocalMidnight(year.value, month.value - 1, day.value, utcOffsetMs))
  }

  /** What the reaper does with one stored credential. */
  datatype Verdict = Ignore | Keep | Delete

  /**
   * The validity policy in milliseconds: non-attestation credentials are
   * ignored; an attestation credential is deleted when its issue date is
   * missing, when it is revoked, or when more than fourteen days' worth of
   * milliseconds have passed since its issue instant; otherwise it is kept
   * (an issue date that does not parse gives no age and is kept).
   */
  function Classify(r: CredentialRecord, clock: Clock): Verdict
  {
    if !IsAttestationCredential(r) then Ignore
    else if IssueDateOf(r).None? || r.revocationNotification then Delete
    else
      var issued := IssueInstant(IssueDateOf(r).value, clock.utcOffsetMs);
      if issued.Some? && clock.nowMs - issued.value > MaxAgeDays * MsInDay then Delete else Keep
  }

  /** The classifier the reaper applies at one instant. */
  function Policy(clock: Clock): CredentialRecord -> Verdict
  {
    r => Classify(r, clock)
  }

  /** The records `classify` gives verdict `v`, in input order. */
  function Select(rs: seq<CredentialRecord>, classify: CredentialRecord -> Verdict, v: Verdict): (s: seq<CredentialRecord>)
    ensures |s| <= |rs|
  {
    if rs == [] then []
    else (if classify(rs[0]) == v then [rs[0]] else []) + Select(rs[1..], classify, v)
  }

  /** The credentials the reaper returns. */
  function Kept(rs: seq<CredentialRecord>, clock: Clock): seq<CredentialRecord>
  {
    Select(rs, Policy(clock), Keep)
  }

  function Ids(rs: seq<CredentialRecord>): (ids: seq<string>)
    ensures |ids| == |rs| && forall k :: 0 <= k < |rs| ==> ids[k] == rs[k].id
  {
    if rs == [] then [] else [rs[0].id] + Ids(rs[1..])
  }

  /** The ids the reaper passes to `deleteById`, in the order it passes them. */
  function DeletedIds(rs: seq<CredentialRecord>, clock: Clock): seq<string>
  {
    Ids(Select(rs, Policy(clock), Delete))
  }

  /** The attestation credentials among `rs`, in order. */
  function AttestationCredentials(rs: seq<CredentialRecord>): (s: seq<CredentialRecord>)
    ensures forall r :: r in s <==> r in rs && IsAttestationCredential(r)
  {
    if rs == [] then []
    else (if IsAttestationCredential(rs[0]) then [rs[0]] else []) + AttestationCredentials(rs[1..])
  }

  /** `rs` without the records whose id is in `ids`: the store after those deletions. */
  function Without(rs: seq<CredentialRecord>, ids: seq<string>): seq<CredentialRecord>
  {
    if rs == [] then []
    else (if rs[0].id in ids then [] else [rs[0]]) + Without(rs[1..], ids)
  }

  /** No two stored credentials share an id. */
  predicate UniqueIds(rs: seq<CredentialRecord>)
  {
    rs == [] || ((forall r :: r in rs[1..] ==> r.id != rs[0].id) && UniqueIds(rs[1..]))
  }

  /** `a` is `b` with some elements dropped, the rest in the same order. */
  predicate IsSubsequence<T(==)>(a: seq<T>, b: seq<T>)
    decreases |b|
  {
    a == [] || (b != [] && ((a[0] == b[0] && IsSubsequence(a[1..], b[1..])) || IsSubsequence(a, b[1..])))
  }

  // ---------------------------------------------------------------------------
  // Properties of the policy
  // ---------------------------------------------------------------------------

  /** The source's `Math.ceil(elapsed / msInDay) > 14` is the millisecond threshold. */
  lemma DaysSinceExceedsLimit(elapsed: int)
    ensures CeilDiv(elapsed, MsInDay) > MaxAgeDays <==> elapsed > MaxAgeDays * MsInDay
  {
    CeilDivExceeds(elapsed, MsInDay, MaxAgeDays);
  }

  /**
   * A credential issued fourteen calendar days before today is deleted at any
   * moment after today's local midnight, and kept only at that midnight itself.
   */
  lemma IssuedFourteenDaysAgo(r: CredentialRecord, clock: Clock, today: int)
    requires IsAttestationCredential(r) && !r.revocationNotification && IssueDateOf(r).Some?
    requires IssueInstant(IssueDateOf(r).value, clock.utcOffsetMs) == Some((today - 14) * MsInDay - clock.utcOffsetMs)
    requires clock.nowMs >= today * MsInDay - clock.utcOffsetMs
    ensures Classify(r, clock) == Keep <==> clock.nowMs == today * MsInDay - clock.utcOffsetMs
  {
  }

  /** An issue instant after `now` gives a negative age: the credential is kept. */
  lemma FutureDatedIsKept(r: CredentialRecord, clock: Clock)
    requires IsAttestationCredential(r) && !r.revocationNotification && IssueDateOf(r).Some?
    requires var t := IssueInstant(IssueDateOf(r).value, clock.utcOffsetMs); t.Some? && t.value > clock.nowMs
    ensures Classify(r, clock) == Keep
  {
  }

  /**
   * An issue date `YYYYMMDD` with a month from 01 to 12 is the local midnight
   * starting that calendar day.
   */
  lemma IssueInstantIsLocalMidnight(date: string, utcOffsetMs: int, year: nat, month: nat, day: nat)
    requires ToNumber(Slice(date, 0, 4)) == Some(year)
    requires ToNumber(Slice(date, 4, 6)) == Some(month)
    requires ToNumber(Slice(date, 6, 8)) == Some(day)
    requires 1 <= month <= 12
    ensures IssueInstant(date, utcOffsetMs) == Some(DaysFromCivil(FullYear(year), month, day) * MsInDay - utcOffsetMs)
  {
    MakeDayInMonth(FullYear(year), month - 1, day);
  }

  /** A `00` month slice makes `new Date(year, -1, day)`: December of the year before. */
  lemma ZeroMonthIsPreviousDecember(date: string, utcOffsetMs: int, year: nat, day: nat)
    requires ToNumber(Slice(date, 0, 4)) == Some(year)
    requires Slice(date, 4, 6) == "00"
    requires ToNumber(Slice(date, 6, 8)) == Some(day)
    ensures IssueInstant(date, utcOffsetMs) == Some(DaysFromCivil(FullYear(year) - 1, 12, day) * MsInDay - utcOffsetMs)
  {
    assert "00"[..1] == "0" && "0"[..0] == "";
    assert ToNumber("00") == Some(0);
    MakeDayMonthBefore(FullYear(year), day);
  }

  /** The issue date is the value of the first `issue_date_dateint` attribute, unless that value is empty. */
  lemma IssueDateIsFirstMatch(r: CredentialRecord, i: nat)
    requires r.credentialAttributes.Some? && i < |r.credentialAttributes.value|
    requires r.credentialAttributes.value[i].name == IssueDateAttribute
    requires forall j :: 0 <= j < i ==> r.credentialAttributes.value[j].name != IssueDateAttribute
    ensures var v := r.credentialAttributes.value[i].value;
      IssueDateOf(r) == if v == "" then None else Some(v)
  {
    var attrs := r.credentialAttributes.value;
    var found := FindAttribute(attrs, IssueDateAttribute);
    assert found.Some?;
    var k :| 0 <= k < |attrs| && attrs[k] == found.value && found.value.name == IssueDateAttribute &&
      forall j :: 0 <= j < k ==> attrs[j].name != IssueDateAttribute;
    assert k == i;
  }

  /** The attestation credential of the scenarios below, issued on 2024-01-01. */
  function ScenarioCredential(revoked: bool): CredentialRecord
  {
    CredentialRecord("c1", Some(AttestationCredDefIds[0]),
      Some([CredentialAttribute("name", "wallet"), CredentialAttribute(IssueDateAttribute, "20240101")]), revoked)
  }

  lemma ScenarioYear()
    ensures ToNumber("2024") == Some(2024)
  {
    assert "2024"[..3] == "202" && "202"[..2] == "20" && "20"[..1] == "2" && "2"[..0] == "";
    assert DigitsValue("2024") == 2024;
  }

  lemma ScenarioMonthAndDay()
    ensures ToNumber("01") == Some(1)
  {
    assert "01"[..1] == "0" && "0"[..0] == "";
    assert DigitsValue("01") == 1;
  }

  /** The issue date 20240101 is local midnight of 2024-01-01, day 19723. */
  lemma ScenarioIssueInstant()
    ensures IssueInstant("20240101", 0) == Some(19723 * MsInDay)
  {
    assert Slice("20240101", 0, 4) == "2024";
    assert Slice("20240101", 4, 6) == "01";
    assert Slice("20240101", 6, 8) == "01";
    ScenarioYear();
    ScenarioMonthAndDay();
    DaysFromCivilAnchors();
    assert LocalMidnight(2024, 0, 1, 0) == DaysFromCivil(2024, 1, 1) * MsInDay;
  }

  lemma ScenarioIssueDate(revoked: bool)
    ensures IsAttestationCredential(ScenarioCredential(revoked))
    ensures IssueDateOf(ScenarioCredential(revoked)) == Some("20240101")
  {
    var attrs := ScenarioCredential(revoked).credentialAttributes.value;
    var dated := CredentialAttribute(IssueDateAttribute, "20240101");
    assert |attrs[0].name| != |IssueDateAttribute|;
    assert attrs[1..] == [dated];
    assert FindAttribute([dated], IssueDateAttribute) == Some(dated);
    assert FindAttribute(attrs, IssueDateAttribute) == Some(dated);
    assert AttestationCredDefIds[0] in AttestationCredDefIds;
  }

  /** Nine days after issue the credential is kept, unless it carries a revocation notification. */
  lemma ScenarioVerdicts(revoked: bool)
    ensures Classify(ScenarioCredential(revoked), ScenarioClock()) == if revoked then Delete else Keep
  {
    ScenarioIssueDate(revoked);
    if !revoked {
      ScenarioIssueInstant();
      DaysFromCivilAnchors();
      assert ScenarioClock().nowMs - 19723 * MsInDay == 9 * MsInDay;
    }
  }

  function ScenarioClock(): Clock
  {
    Clock(DaysFromCivil(2024, 1, 10) * MsInDay, 0)
  }

  /**
   * At 2024-01-10 the store [c1, c2], with c2 of another credential
   * definition, yields [c1] and no deletion; with c1 revoked it yields
   * nothing and one deletion of c1.
   */
  lemma ScenarioNineDaysOld(revoked: bool)
    ensures var other := CredentialRecord("c2", Some("D2"), None, false);
      var rs := [ScenarioCredential(revoked), other];
      && Kept(rs, ScenarioClock()) == (if revoked then [] else [ScenarioCredential(revoked)])
      && DeletedIds(rs, ScenarioClock()) == (if revoked then ["c1"] else [])
  {
    var other := CredentialRecord("c2", Some("D2"), None, false);
    var c1 := ScenarioCredential(revoked);
    var rs := [c1, other];
    var policy := Policy(ScenarioClock());
    assert policy(c1) == if revoked then Delete else Keep by {
      ScenarioVerdicts(revoked);
    }
    assert policy(other) == Ignore by {
      assert !IsAttestationCredential(other);
    }
    assert rs == [c1] + [other];
    SelectAppend([c1], [other], policy, Keep);
    SelectAppend([c1], [other], policy, Delete);
  }

  /** The filter returns exactly the records of `rs` that `classify` gives verdict `v`. */
  lemma {:induction false} SelectMembers(rs: seq<CredentialRecord>, classify: CredentialRecord -> Verdict, v: Verdict)
    ensures forall r :: r in Select(rs, classify, v) <==> r in rs && classify(r) == v
  {
    if rs != [] {
      SelectMembers(rs[1..], classify, v);
      var rest := Select(rs[1..], classify, v);
      assert Select(rs, classify, v) == (if classify(rs[0]) == v then [rs[0]] else []) + rest;
      assert rs == [rs[0]] + rs[1..];
    }
  }

  /** After the deletions, exactly the records whose id was not deleted remain. */
  lemma {:induction false} WithoutMembers(rs: seq<CredentialRecord>, ids: seq<string>)
    ensures forall r :: r in Without(rs, ids) <==> r in rs && r.id !in ids
  {
    if rs != [] {
      WithoutMembers(rs[1..], ids);
      var rest := Without(rs[1..], ids);
      assert Without(rs, ids) == (if rs[0].id in ids then [] else [rs[0]]) + rest;
      assert rs == [rs[0]] + rs[1..];
    }
  }

  lemma {:induction false} SelectAppend(a: seq<CredentialRecord>, b: seq<CredentialRecord>, classify: CredentialRecord -> Verdict, v: Verdict)
    ensures Select(a + b, classify, v) == Select(a, classify, v) + Select(b, classify, v)
  {
    if a == [] {
      assert a + b == b;
    } else {
      var head := if classify(a[0]) == v then [a[0]] else [];
      var ab := a + b;
      assert ab[0] == a[0] && ab[1..] == a[1..] + b;
      SelectAppend(a[1..], b, classify, v);
      calc {
        Select(ab, classify, v);
        head + Select(a[1..] + b, classify, v);
        head + (Select(a[1..], classify, v) + Select(b, classify, v));
        (head + Select(a[1..], classify, v)) + Select(b, classify, v);
      }
    }
  }

  lemma {:induction false} IdsAppend(a: seq<CredentialRecord>, b: seq<CredentialRecord>)
    ensures Ids(a + b) == Ids(a) + Ids(b)
  {
    if a != [] {
      assert (a + b)[0] == a[0];
      assert (a + b)[1..] == a[1..] + b;
      IdsAppend(a[1..], b);
    }
  }

  /** Kept and deleted records each come out in input order. */
  lemma {:induction false} SelectIsSubsequence(rs: seq<CredentialRecord>, classify: CredentialRecord -> Verdict, v: Verdict)
    ensures IsSubsequence(Select(rs, classify, v), rs)
  {
    if rs != [] {
      SelectIsSubsequence(rs[1..], classify, v);
      var rest := Select(rs[1..], classify, v);
      if classify(rs[0]) == v {
        assert Select(rs, classify, v) == [rs[0]] + rest;
        assert ([rs[0]] + rest)[0] == rs[0];
        assert ([rs[0]] + rest)[1..] == rest;
      } else {
        assert Select(rs, classify, v) == rest;
      }
    }
  }

  /**
   * Every returned credential is a valid attestation credential: allow-listed,
   * dated, unrevoked and at most fourteen days old (or undatable).
   */
  lemma KeptAreValidAttestations(rs: seq<CredentialRecord>, clock: Clock)
    ensures forall r :: r in Kept(rs, clock) ==>
      && r in rs
      && IsAttestationCredential(r)
      && IssueDateOf(r).Some?
      && !r.revocationNotification
      && var t := IssueInstant(IssueDateOf(r).value, clock.utcOffsetMs);
         t.Some? ==> clock.nowMs - t.value <= MaxAgeDays * MsInDay
  {
    SelectMembers(rs, Policy(clock), Keep);
  }

  /**
   * Conversely, every stored attestation credential that is dated, not
   * revoked, and at most 14 days old in milliseconds (or has no parseable
   * date) is returned.
   */
  lemma ValidAttestationsAreKept(rs: seq<CredentialRecord>, clock: Clock)
    ensures forall r :: (
      && r in rs && IsAttestationCredential(r) && IssueDateOf(r).Some? && !r.revocationNotification
      && (var t := IssueInstant(IssueDateOf(r).value, clock.utcOffsetMs);
          t.Some? ==> clock.nowMs - t.value <= MaxAgeDays * MsInDay)
      ==> r in Kept(rs, clock))
  {
    SelectMembers(rs, Policy(clock), Keep);
  }

  /** Every attestation credential is either returned or deleted, and nothing else is. */
  lemma {:induction false} Partition(rs: seq<CredentialRecord>, clock: Clock)
    ensures multiset(Kept(rs, clock)) + multiset(Select(rs, Policy(clock), Delete))
         == multiset(AttestationCredentials(rs))
  {
    forall r ensures Policy(clock)(r) == Ignore <==> !IsAttestationCredential(r) {
    }
    PartitionBy(rs, Policy(clock));
  }

  lemma {:induction false} PartitionBy(rs: seq<CredentialRecord>, classify: CredentialRecord -> Verdict)
    requires forall r :: classify(r) == Ignore <==> !IsAttestationCredential(r)
    ensures multiset(Select(rs, classify, Keep)) + multiset(Select(rs, classify, Delete))
         == multiset(AttestationCredentials(rs))
  {
    if rs != [] {
      PartitionBy(rs[1..], classify);
    }
  }

  lemma {:induction false} SameIdSameRecord(rs: seq<CredentialRecord>, a: CredentialRecord, b: CredentialRecord)
    requires UniqueIds(rs) && a in rs && b in rs && a.id == b.id
    ensures a == b
  {
    if a != rs[0] && b != rs[0] {
      assert a in rs[1..] && b in rs[1..];
      SameIdSameRecord(rs[1..], a, b);
    }
  }

  lemma {:induction false} UniqueIdsOfSelect(rs: seq<CredentialRecord>, classify: CredentialRecord -> Verdict, v: Verdict)
    requires UniqueIds(rs)
    ensures UniqueIds(Select(rs, classify, v))
  {
    if rs != [] {
      UniqueIdsOfSelect(rs[1..], classify, v);
      SelectMembers(rs[1..], classify, v);
      var rest := Select(rs[1..], classify, v);
      if classify(rs[0]) == v {
        assert Select(rs, classify, v) == [rs[0]] + rest;
        assert ([rs[0]] + rest)[0] == rs[0];
        assert ([rs[0]] + rest)[1..] == rest;
        assert forall r :: r in rs[1..] ==> r.id != rs[0].id;
        assert forall r :: r in rest ==> r in rs[1..];
      } else {
        assert Select(rs, classify, v) == rest;
      }
    }
  }

  lemma {:induction false} IdOccursOnce(s: seq<CredentialRecord>, x: string)
    requires UniqueIds(s)
    ensures multiset(Ids(s))[x] <= 1
  {
    if s != [] {
      IdOccursOnce(s[1..], x);
      assert Ids(s) == [s[0].id] + Ids(s[1..]);
      if s[0].id == x {
        assert x !in Ids(s[1..]);
      }
    }
  }

  /** With unique ids, a record's id is among the ids of a filter's output iff the record passes the filter. */
  lemma {:induction false} IdSelected(rs: seq<CredentialRecord>, classify: CredentialRecord -> Verdict, v: Verdict, i: nat)
    requires UniqueIds(rs) && i < |rs|
    ensures rs[i].id in Ids(Select(rs, classify, v)) <==> classify(rs[i]) == v
  {
    var rest := Select(rs[1..], classify, v);
    var head := if classify(rs[0]) == v then [rs[0]] else [];
    assert Select(rs, classify, v) == head + rest;
    IdsAppend(head, rest);
    SelectMembers(rs[1..], classify, v);
    if i == 0 {
      assert rs[0].id !in Ids(rest) by {
        forall k | 0 <= k < |rest|
          ensures Ids(rest)[k] != rs[0].id
        {
          assert rest[k] in rs[1..];
        }
      }
    } else {
      assert rs[i] == rs[1..][i - 1];
      IdSelected(rs[1..], classify, v, i - 1);
      if head != [] {
        assert rs[i] in rs[1..];
      }
    }
  }

  /**
   * With unique ids, an attestation credential is passed to `deleteById`
   * exactly once when it is not returned, and never when it is.
   */
  lemma DeletedExactlyOnce(rs: seq<CredentialRecord>, clock: Clock, i: nat)
    requires UniqueIds(rs) && i < |rs| && IsAttestationCredential(rs[i])
    ensures rs[i] in Kept(rs, clock) <==> multiset(DeletedIds(rs, clock))[rs[i].id] == 0
    ensures rs[i] !in Kept(rs, clock) <==> multiset(DeletedIds(rs, clock))[rs[i].id] == 1
  {
    assert Policy(clock)(rs[i]) != Ignore;
    KeptOrDeletedOnce(rs, Policy(clock), i);
  }

  lemma KeptOrDeletedOnce(rs: seq<CredentialRecord>, classify: CredentialRecord -> Verdict, i: nat)
    requires UniqueIds(rs) && i < |rs| && classify(rs[i]) != Ignore
    ensures rs[i] in Select(rs, classify, Keep) <==> multiset(Ids(Select(rs, classify, Delete)))[rs[i].id] == 0
    ensures rs[i] !in Select(rs, classify, Keep) <==> multiset(Ids(Select(rs, classify, Delete)))[rs[i].id] == 1
  {
    SelectMembers(rs, classify, Keep);
    IdSelected(rs, classify, Delete, i);
    UniqueIdsOfSelect(rs, classify, Delete);
    IdOccursOnce(Select(rs, classify, Delete), rs[i].id);
  }

  /** A credential that is not an attestation credential is neither returned nor deleted. */
  lemma NonAttestationUntouched(rs: seq<CredentialRecord>, clock: Clock, i: nat)
    requires UniqueIds(rs) && i < |rs| && !IsAttestationCredential(rs[i])
    ensures rs[i] !in Kept(rs, clock)
    ensures rs[i].id !in DeletedIds(rs, clock)
  {
    SelectMembers(rs, Policy(clock), Keep);
    IdSelected(rs, Policy(clock), Delete, i);
  }

  lemma {:induction false} WithoutNothing(rs: seq<CredentialRecord>)
    ensures Without(rs, []) == rs
  {
    if rs != [] {
      WithoutNothing(rs[1..]);
    }
  }

  lemma {:induction false} WithoutAppend(rs: seq<CredentialRecord>, ids: seq<string>, x: string)
    ensures Without(Without(rs, ids), [x]) == Without(rs, ids + [x])
  {
    if rs != [] {
      WithoutAppend(rs[1..], ids, x);
      var h := rs[0];
      var rest := Without(rs[1..], ids);
      assert (h.id in ids + [x]) == (h.id in ids || h.id == x);
      if h.id in ids {
        assert Without(rs, ids) == rest;
      } else {
        assert Without(rs, ids) == [h] + rest;
        assert ([h] + rest)[0] == h;
        assert ([h] + rest)[1..] == rest;
      }
    }
  }

  lemma {:induction false} UniqueIdsOfWithout(rs: seq<CredentialRecord>, ids: seq<string>)
    requires UniqueIds(rs)
    ensures UniqueIds(Without(rs, ids))
  {
    if rs != [] {
      UniqueIdsOfWithout(rs[1..], ids);
      WithoutMembers(rs[1..], ids);
      var rest := Without(rs[1..], ids);
      if rs[0].id !in ids {
        assert Without(rs, ids) == [rs[0]] + rest;
        assert ([rs[0]] + rest)[1..] == rest;
        assert forall r :: r in rest ==> r in rs[1..];
      } else {
        assert Without(rs, ids) == rest;
      }
    }
  }

  /**
   * Removing a set of ids that covers every deleted record and no kept record
   * leaves the same kept list and nothing to delete.
   */
  lemma {:induction false} PrunedIsStable(rs: seq<CredentialRecord>, classify: CredentialRecord -> Verdict, ids: seq<string>)
    requires forall r :: r in rs && classify(r) == Delete ==> r.id in ids
    requires forall r :: r in rs && classify(r) == Keep ==> r.id !in ids
    ensures Select(Without(rs, ids), classify, Keep) == Select(rs, classify, Keep)
    ensures Select(Without(rs, ids), classify, Delete) == []
  {
    if rs != [] {
      PrunedIsStable(rs[1..], classify, ids);
      var rest := Without(rs[1..], ids);
      if rs[0].id in ids {
        assert Without(rs, ids) == rest;
      } else {
        assert Without(rs, ids) == [rs[0]] + rest;
        assert ([rs[0]] + rest)[1..] == rest;
      }
    }
  }

  /**
   * Running the reaper again, at the same instant, on the store without the
   * ids it deleted returns the same credentials and deletes nothing.
   */
  lemma Idempotence(rs: seq<CredentialRecord>, clock: Clock)
    requires UniqueIds(rs)
    ensures Kept(Without(rs, DeletedIds(rs, clock)), clock) == Kept(rs, clock)
    ensures DeletedIds(Without(rs, DeletedIds(rs, clock)), clock) == []
  {
    var deleted := Select(rs, Policy(clock), Delete);
    var ids := Ids(deleted);
    SelectMembers(rs, Policy(clock), Delete);
    forall r | r in rs && Classify(r, clock) == Keep
      ensures r.id !in ids
    {
      if r.id in ids {
        var k :| 0 <= k < |deleted| && ids[k] == r.id;
        SameIdSameRecord(rs, deleted[k], r);
      }
    }
    forall r | r in rs && Classify(r, clock) == Delete
      ensures r.id in ids
    {
      var k :| 0 <= k < |deleted| && deleted[k] == r;
      assert ids[k] == r.id;
    }
    PrunedIsStable(rs, Policy(clock), ids);
  }

  // ---------------------------------------------------------------------------
  // Validator/Reaper
  // ---------------------------------------------------------------------------

  /**
   * The agent's credential store: its records and the log of `deleteById`
   * calls. A deletion is modelled as completing before the next call.
   */
  class CredentialStore {
    var records: seq<CredentialRecord>
    var deleteCalls: seq<string>

    ghost predicate Valid()
      reads this
    {
      UniqueIds(records)
    }

    constructor (records: seq<CredentialRecord>)
      requires UniqueIds(records)
      ensures Valid() && this.records == records && deleteCalls == []
    {
      this.records := records;
      deleteCalls := [];
    }

    /** `agent.credentials.getAll()` */
    method GetAll() returns (all: seq<CredentialRecord>)
      ensures all == records
    {
      all := records;
    }

    /** `agent.credentials.deleteById(id)` */
    method DeleteById(id: string)
      modifies this
      ensures old(Valid()) ==> Valid()
      ensures records == Without(old(records), [id])
      ensures deleteCalls == old(deleteCalls) + [id]
    {
      if Valid() {
        UniqueIdsOfWithout(records, [id]);
      }
      records := Without(records, [id]);
      deleteCalls := deleteCalls + [id];
    }
  }

  /**
   * The filter callback for one record: returns whether to keep it, and calls
   * `deleteById` for an attestation credential that is undated, revoked, or
   * whose age in rounded-up days exceeds fourteen.
   */
  method CheckRecord(store: CredentialStore, record: CredentialRecord, clock: Clock) returns (keep: bool)
    modifies store
    ensures old(store.Valid()) ==> store.Valid()
    ensures keep <==> Classify(record, clock) == Keep
    ensures Classify(record, clock) == Delete ==>
      store.records == Without(old(store.records), [record.id]) &&
      store.deleteCalls == old(store.deleteCalls) + [record.id]
    ensures Classify(record, clock) != Delete ==>
      store.records == old(store.records) && store.deleteCalls == old(store.deleteCalls)
  {
    var credDefId := record.credentialDefinitionId;
    if credDefId.Some? && credDefId.value != "" && IsAttestationCredDefId(credDefId.value) {
      var dateStr := IssueDateOf(record);
      if dateStr.None? {
        store.DeleteById(record.id);
        return false;
      }
      var issueTime := IssueInstant(dateStr.value, clock.utcOffsetMs);
      // NaN propagates into daysSince, and `NaN > 14` is false.
      var daysSince: Option<int> := if issueTime.Some? then Some(CeilDiv(clock.nowMs - issueTime.value, MsInDay)) else None;
      if issueTime.Some? {
        DaysSinceExceedsLimit(clock.nowMs - issueTime.value);
      }
      if (daysSince.Some? && daysSince.value > MaxAgeDays) || record.revocationNotification {
        store.DeleteById(record.id);
        return false;
      }
      return true;
    }
    return false;
  }

  /** How the specification of one pass grows by one record. */
  lemma ReapStep(credentials: seq<CredentialRecord>, i: nat, clock: Clock, verdict: Verdict)
    requires i < |credentials| && verdict == Classify(credentials[i], clock)
    ensures Kept(credentials[..i + 1], clock) ==
      Kept(credentials[..i], clock) + (if verdict == Keep then [credentials[i]] else [])
    ensures DeletedIds(credentials[..i + 1], clock) ==
      DeletedIds(credentials[..i], clock) + (if verdict == Delete then [credentials[i].id] else [])
  {
    var record := credentials[i];
    var classify := Policy(clock);
    assert credentials[..i + 1] == credentials[..i] + [record];
    SelectAppend(credentials[..i], [record], classify, Keep);
    SelectAppend(credentials[..i], [record], classify, Delete);
    IdsAppend(Select(credentials[..i], classify, Delete), Select([record], classify, Delete));
    assert Select([record], classify, Delete) == (if verdict == Delete then [record] else []);
    assert Select([record], classify, Keep) == (if verdict == Keep then [record] else []);
  }

  /**
   * Reads every stored credential, deletes the invalid attestation
   * credentials and returns the valid ones, in store order.
   */
  method RetrieveAndTrimAvailableAttestationCredentials(store: CredentialStore, clock: Clock)
    returns (valid: seq<CredentialRecord>)
    modifies store
    ensures old(store.Valid()) ==> store.Valid()
    ensures valid == Kept(old(store.records), clock)
    ensures store.deleteCalls == old(store.deleteCalls) + DeletedIds(old(store.records), clock)
    ensures store.records == Without(old(store.records), DeletedIds(old(store.records), clock))
  {
    var credentials := store.GetAll();
    ghost var deleted: seq<string> := [];
    WithoutNothing(credentials);
    valid := [];
    var i := 0;
    while i < |credentials|
      invariant 0 <= i <= |credentials|
      invariant old(store.Valid()) ==> store.Valid()
      invariant valid == Kept(credentials[..i], clock)
      invariant deleted == DeletedIds(credentials[..i], clock)
      invariant store.deleteCalls == old(store.deleteCalls) + deleted
      invariant store.records == Without(credentials, deleted)
    {
      var record := credentials[i];
      ghost var verdict := Classify(record, clock);
      ReapStep(credentials, i, clock, verdict);
      WithoutAppend(credentials, deleted, record.id);
      var keep := CheckRecord(store, record, clock);
      if keep {
        valid := valid + [record];
      }
      if verdict == Delete {
        deleted := deleted + [record.id];
      }
      i := i + 1;
    }
    assert credentials[..i] == credentials;
  }

  /**
   * Two passes at the same instant: the second returns what the first
   * returned and issues no deletion of its own.
   */
  method RetrieveTwice(store: CredentialStore, clock: Clock)
    returns (first: seq<CredentialRecord>, second: seq<CredentialRecord>)
    requires store.Valid()
    modifies store
    ensures first == Kept(old(store.records), clock)
    ensures second == first
    ensures store.records == Without(old(store.records), DeletedIds(old(store.records), clock))
    ensures store.deleteCalls == old(store.deleteCalls) + DeletedIds(old(store.records), clock)
    ensures store.Valid()
  {
    Idempotence(store.records, clock);
    first := RetrieveAndTrimAvailableAttestationCredentials(store, clock);
    ghost var pruned := store.records;
    NothingLeftToDelete(old(store.records), pruned, clock);
    second := RetrieveAndTrimAvailableAttestationCredentials(store, clock);
    WithoutNothing(pruned);
  }

  /** The store the reaper leaves behind has nothing left to delete. */
  lemma NothingLeftToDelete(rs: seq<CredentialRecord>, pruned: seq<CredentialRecord>, clock: Clock)
    requires UniqueIds(rs) && pruned == Without(rs, DeletedIds(rs, clock))
    ensures DeletedIds(pruned, clock) == []
  {
    Idempotence(rs, clock);
  }
}
