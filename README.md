# Attestation policy of the BC Wallet, in Dafny

This project models the attestation helper of the BC Wallet mobile app
(`app/src/helpers/Attestation.ts`). An "attestation" credential is a
bot-mitigation credential. It is recognised by its credential-definition id,
which must be in a fixed allow-list of three ids. The helper decides three
things:

- **Format Resolver** (`formatForProofWithId`): builds the sparse
  `proofFormats` object for the agent. It has an `indy` key and/or an
  `anoncreds` key, one for each sub-format the request declares, and each key
  carries the `filterByNonRevocationRequirements` flag.
- **Attestation Detector** (`isProofRequestingAttestation`): does some
  restriction of the request's `attestationInfo` group name an allow-listed
  credential definition? The restrictions are read under `anoncreds` when that
  slot is truthy, otherwise under `indy`.
- **Validator/Reaper** (`retrieveAndTrimAvailableAttestationCredentials`):
  walks the stored credentials. It keeps the valid attestation credentials. It
  calls `deleteById` for an attestation credential that has no issue date, is
  revoked, or is older than 14 rounded-up days. It never touches any other
  credential.
- **Satisfiability Checker** (`credentialsMatchForAttestationProof`): asks the
  agent for matching credentials under the resolver's configuration. The answer
  is yes when the `attestationInfo` list of the `anoncreds` answer (or, when
  that is absent, of the `indy` answer) is non-empty.

Files:

- `wrappers.dfy`: `Option` and `Result`.
- `js_runtime.dfy`: the JavaScript built-ins the helper relies on:
  - `null`/`undefined` slots (`Nullish`) and `??`;
  - `String.prototype.slice` and `Number()` on a digit string;
  - `Math.ceil` of a quotient (`CeilDiv`), with the lemma that turns a
    rounded-up day count into a millisecond threshold;
  - `new Date(year, monthIndex, day)` as ECMAScript's MakeDay over a
    days-from-civil calendar, at a fixed offset from UTC.
- `attestation.dfy`: the helper itself.
  - Its functions follow the source's expression logic.
  - `Classify` states the validity policy in milliseconds.
  - `CredentialStore` is the agent's credential module: a `records` field and a
    log of `deleteById` calls.
  - `CheckRecord` is the filter callback and
    `RetrieveAndTrimAvailableAttestationCredentials` is the loop over the store.
    Both are proved against `Classify`, `Kept` and `DeletedIds`.

Behaviour of the code that a reader might not expect. The model follows the
code in each case:

- The age test is `ceil(elapsed / msInDay) > 14`, where `elapsed` counts from
  local midnight of the issue day. This equals "more than 14 × 86 400 000 ms
  have passed" (`DaysSinceExceedsLimit`). Consequences:
  - At any moment after the issue day's local midnight, a credential issued
    today is already 1 day old (`CeilDivWithinOne`), not 0. At that midnight
    itself the elapsed time is 0 and so is the day count.
  - A credential issued 14 calendar days ago is deleted at any moment after
    today's midnight. It is kept only at that midnight itself
    (`IssuedFourteenDaysAgo`).
- An issue date whose year, month or day slice is not numeric gives `NaN`.
  `NaN > 14` is false, so such a credential is kept unless it is revoked. It is
  not deleted.
- The detector picks `anoncreds` whenever that slot holds an object, even an
  empty one (`{}` is truthy).
- The resolver treats a `null` sub-format as present (`!== undefined`). The
  detector treats it as absent.
- The resolver's "Unable to lookup proof request format" error can never be
  thrown, because an object literal is always truthy. `FormatForProofWithId`
  therefore has no error path.
- If the chosen answer has no `attestationInfo` entry, the satisfiability check
  reads `.length` of `undefined` and throws a `TypeError`. This is modelled as
  `Failure(TypeError)`.

## Model

| member | source | states |
|---|---|---|
| `Attestation.AttestationCredDefIds` | app/src/helpers/Attestation.ts:8-12 | constant; the three allow-listed credential-definition ids, verbatim |
| `Attestation.Declares` | app/src/helpers/Attestation.ts:62-63 | no contract; the body is the definition: `format.request?.<sub> !== undefined`, so a `null` sub-format counts as declared |
| `Attestation.FormatForProofWithId` | app/src/helpers/Attestation.ts:60-88 | the config has an `indy` key iff `request.indy !== undefined` and an `anoncreds` key iff `request.anoncreds !== undefined` (a `null` slot counts as present); every present key carries exactly the given flag; the call never fails |
| `Attestation.RestrictsToAttestation` | app/src/helpers/Attestation.ts:109 | no contract; the body is the definition: `attestationCredDefIds.includes(rstr.cred_def_id)`, false when the restriction has no `cred_def_id` |
| `Attestation.SomeAttestationRestriction` | app/src/helpers/Attestation.ts:108-110 | `restrictions.some(...)` is true iff some restriction has a `cred_def_id` in the allow-list (a restriction without one never matches) |
| `Attestation.IsProofRequestingAttestation` | app/src/helpers/Attestation.ts:101-111 | true iff the `attestationInfo` restrictions under the sub-format in use exist and one of them names an allow-listed credential definition; any missing level gives false, never an error |
| `Attestation.FormatToUse` | app/src/helpers/Attestation.ts:106 | no contract; the body is the definition: `anoncreds` when the request exists and its `anoncreds` slot holds an object (truthy), `indy` otherwise |
| `Attestation.AttestationRestrictions` | app/src/helpers/Attestation.ts:108 | no contract; the body is the definition: the optional chain `request?.[formatToUse]?.requested_attributes?.attestationInfo?.restrictions`, absent as soon as one level is missing (a `null` sub-format included) |
| `Attestation.DetectorPrefersAnonCreds` | app/src/helpers/Attestation.ts:106-108 | when `anoncreds` holds an object the `indy` part of the request cannot change the answer |
| `Attestation.DetectorFallsBackToIndy` | app/src/helpers/Attestation.ts:106-108 | when `anoncreds` is `null` or `undefined` the answer is the one for the `indy` part alone |
| `Attestation.DetectsAllowListedRestriction` | app/src/helpers/Attestation.ts:105-110 | a request is detected when the `attestationInfo` group of the sub-format the detector reads restricts to an allow-listed `cred_def_id`, whatever its other referents; under `anoncreds` the `indy` slot may hold anything, and under `indy` the `anoncreds` slot is `null` or `undefined` (otherwise `anoncreds` would be read) |
| `Attestation.DetectedFormatIsSelected` | app/src/helpers/Attestation.ts:62-106 | when the detector says yes, the resolver's config selects the sub-format the detector read, carrying the given flag |
| `JsRuntime.Coalesce` | app/src/helpers/Attestation.ts:183 | no contract; the body is the definition: `a ?? b` is `a` unless it is `null` or `undefined` |
| `Attestation.UsedAnswer` | app/src/helpers/Attestation.ts:183 | no contract; the body is the definition: the answer `anoncreds ?? indy` picks, named by sub-format (`indy` only when `anoncreds` is `null` or `undefined`) |
| `Attestation.CredentialsMatchForAttestationProof` | app/src/helpers/Attestation.ts:168-187 | the agent is asked with the resolver's config built from the flag (default true); no answer, or an answer with neither sub-format, gives false; otherwise the `anoncreds` answer (preferred) or else the `indy` answer decides: true iff its `attestationInfo` list is non-empty, a `TypeError` if that list is missing |
| `Attestation.HasAttestationMatch` | app/src/helpers/Attestation.ts:186 | no contract; the body is the definition: `attestationInfo.length !== 0` for the chosen answer, and a `TypeError` when that answer has no `attestationInfo` entry |
| `Attestation.EmptyProofFormatsIsFalse` | app/src/helpers/Attestation.ts:179-184 | an agent answer of `{proofFormats: {}}` gives false for every request and flag |
| `Attestation.NoAnswerIsFalse` | app/src/helpers/Attestation.ts:174-179 | a missing agent answer gives false |
| `Attestation.FindAttribute` | app/src/helpers/Attestation.ts:129 | `find` returns the first attribute with the given name, and nothing iff no attribute has that name |
| `Attestation.IssueDateOf` | app/src/helpers/Attestation.ts:129-130 | no contract; the body is the definition: the value of the first `issue_date_dateint` attribute (via `FindAttribute`), absent when the attribute list or the attribute is missing or the value is the empty string (`!dateStr`) |
| `Attestation.IssueDateIsFirstMatch` | app/src/helpers/Attestation.ts:129-130 | when the first attribute named `issue_date_dateint` is at index i, the issue date is its value, or nothing when that value is empty |
| `Attestation.IsAttestationCredential` | app/src/helpers/Attestation.ts:126-128 | no contract; the body is the definition: `credDefId && attestationCredDefIds.includes(credDefId)` on the record's optional credential-definition id |
| `JsRuntime.Slice` | app/src/helpers/Attestation.ts:135-137 | `dateStr.slice(from, to)`: the substring when both bounds lie within the string, never longer than the string (bounds are clamped, so a short date gives short or empty slices) |
| `JsRuntime.ToNumber` | app/src/helpers/Attestation.ts:135-137 | `Number()` of a digit slice is its decimal value (the empty slice is 0); any other slice is `NaN` |
| `Attestation.IssueInstant` | app/src/helpers/Attestation.ts:135-138 | `new Date(Number(y), Number(m) - 1, Number(d))` of the three slices; the result is `NaN` (absent) iff one of the slices is not a digit string |
| `Attestation.IssueInstantIsLocalMidnight` | app/src/helpers/Attestation.ts:135-138 | for a month slice from 01 to 12, the issue instant is the local midnight that starts that calendar day (two-digit years read as 19xx) |
| `Attestation.ZeroMonthIsPreviousDecember` | app/src/helpers/Attestation.ts:136-138 | a month slice `00` gives `month - 1 == -1`, which the `Date` constructor reads as December of the year before |
| `JsRuntime.LocalMidnight` | app/src/helpers/Attestation.ts:138 | no contract; the body is the definition: `new Date(year, monthIndex, day).getTime()`, with years 0..99 read as 1900..1999 (`FullYear`) and the local midnight shifted by the zone offset |
| `JsRuntime.FullYear` | app/src/helpers/Attestation.ts:138 | no contract; the body is the definition: the `Date` constructor reads years 0..99 as 1900..1999 and other years as given |
| `JsRuntime.MakeDay` | app/src/helpers/Attestation.ts:138 | no contract; the body is the definition: ECMAScript's MakeDay, in which an out-of-range month carries into the year |
| `JsRuntime.DaysFromCivil` | app/src/helpers/Attestation.ts:138 | no contract; the body is the definition: days from 1970-01-01 in the proleptic Gregorian calendar |
| `JsRuntime.DaysFromCivilAnchors` | app/src/helpers/Attestation.ts:138 | 1970-01-01 is day 0, 2024-01-01 is day 19723 and 2024-01-10 is day 19732 |
| `JsRuntime.MakeDayInMonth` | app/src/helpers/Attestation.ts:138 | a month index from 0 to 11 is that calendar month, and the day counts within it |
| `JsRuntime.MakeDayMonthBefore` | app/src/helpers/Attestation.ts:138 | month index -1 is December of the year before |
| `JsRuntime.CeilDiv` | app/src/helpers/Attestation.ts:140 | no contract; the body is the definition: `Math.ceil(n / d)` for a positive divisor on exact integers, as `-((-n) div d)` with floor division |
| `JsRuntime.CeilDivExceeds` | app/src/helpers/Attestation.ts:140-142 | for a positive divisor, the rounded-up quotient exceeds k iff the dividend exceeds k divisors |
| `JsRuntime.CeilDivWithinOne` | app/src/helpers/Attestation.ts:140 | any positive elapsed time up to one day rounds up to one day |
| `Attestation.Classify` | app/src/helpers/Attestation.ts:126-148 | no contract; the body is the definition of the filter callback's decision: ignore a credential that is not allow-listed; delete one that has no issue date, is revoked, or is more than 14 × msInDay past its issue instant; keep the rest, including one whose date gives `NaN` |
| `Attestation.DaysSinceExceedsLimit` | app/src/helpers/Attestation.ts:140-142 | `ceil(elapsed / msInDay) > 14` holds iff `elapsed > 14 * msInDay` milliseconds |
| `Attestation.IssuedFourteenDaysAgo` | app/src/helpers/Attestation.ts:135-145 | a dated, unrevoked attestation credential issued 14 calendar days before today is kept only at today's local midnight and deleted at any later moment |
| `Attestation.FutureDatedIsKept` | app/src/helpers/Attestation.ts:140-148 | an issue instant later than now (negative elapsed time) keeps a dated, unrevoked attestation credential |
| `Attestation.Select` | app/src/helpers/Attestation.ts:125-152 | the recursive form of `credentials.filter(...)` for one verdict; its own contract is only a length bound, and what it returns is stated by `SelectMembers` (membership) and `SelectIsSubsequence` (order) |
| `Attestation.SelectMembers` | app/src/helpers/Attestation.ts:125-152 | the filter returns exactly the input records with the requested verdict |
| `Attestation.WithoutMembers` | app/src/helpers/Attestation.ts:131 | after the `deleteById` calls, exactly the stored records whose id was not passed remain |
| `Attestation.SelectIsSubsequence` | app/src/helpers/Attestation.ts:125-152 | the kept records and the deleted records each form an order-preserving subsequence of `getAll()` |
| `Attestation.KeptAreValidAttestations` | app/src/helpers/Attestation.ts:126-148 | every returned record was stored, has an allow-listed credential-definition id and an issue date, is not revoked, and is at most 14 days old in milliseconds (or has no parseable date) |
| `Attestation.ValidAttestationsAreKept` | app/src/helpers/Attestation.ts:126-148 | the converse of the previous row: every stored, allow-listed, dated, unrevoked credential at most 14 days old in milliseconds (or with no parseable date) is returned |
| `Attestation.Kept` | app/src/helpers/Attestation.ts:125-152 | no contract; the body is the definition: the records the filter callback returns true for, in store order; what they are is stated by `KeptAreValidAttestations` and `ValidAttestationsAreKept` |
| `Attestation.DeletedIds` | app/src/helpers/Attestation.ts:125-152 | no contract; the body is the definition: the ids passed to `deleteById`, in store order; stated about by `Partition` and `DeletedExactlyOnce` |
| `Attestation.Partition` | app/src/helpers/Attestation.ts:125-152 | the kept records and the deleted records together are exactly the attestation credentials of the store, as multisets |
| `Attestation.DeletedExactlyOnce` | app/src/helpers/Attestation.ts:128-148 | with unique ids, an attestation credential is returned iff its id is never passed to `deleteById`, and is passed exactly once otherwise |
| `Attestation.NonAttestationUntouched` | app/src/helpers/Attestation.ts:126-151 | a credential without an allow-listed credential-definition id is never returned and (with unique ids) never deleted |
| `Attestation.ScenarioNineDaysOld` | app/src/helpers/Attestation.ts:125-152 | at 2024-01-10 a store of an attestation credential issued 20240101 and a credential of another definition yields the first alone with no deletion, or nothing and one deletion when the first is revoked |
| `Attestation.Idempotence` | app/src/helpers/Attestation.ts:120-153 | with unique ids and the same instant, a second pass over the store without the deleted ids returns the same credentials and deletes nothing |
| `Attestation.CredentialStore.GetAll` | app/src/helpers/Attestation.ts:123 | returns the stored records |
| `Attestation.CredentialStore.DeleteById` | app/src/helpers/Attestation.ts:131 | removes the records with that id, logs the call and keeps ids unique |
| `Attestation.CheckRecord` | app/src/helpers/Attestation.ts:125-152 | the filter callback keeps a record iff the policy says Keep; it calls `deleteById` once, with the record's id, iff the policy says Delete, and otherwise leaves the store alone |
| `Attestation.RetrieveAndTrimAvailableAttestationCredentials` | app/src/helpers/Attestation.ts:120-153 | returns the kept records in store order; the `deleteById` calls are the deleted ids in store order; the store loses exactly those ids |
| `Attestation.RetrieveTwice` | app/src/helpers/Attestation.ts:120-153 | two passes at the same instant: the first returns the kept records, the second returns the same list and issues no deletion, the delete log holds the first pass's deleted ids only, and the store ends without those ids and with unique ids |

## Left out

- The agent framework is not modelled. What `agent.proofs.getFormatData` and `agent.credentials.getAll` return is input data. `agent.proofs.getCredentialsForRequest` is a function parameter. `record.metadata.get(...)` becomes an optional credential-definition id on the record.
- `deleteById` is asynchronous and not awaited. It is modelled as a removal that completes before the next record is looked at, plus one entry in a call log. A rejected deletion is not modelled.
- The source calls `new Date()` once per record. The model uses one instant for the whole pass.
- Local time is a fixed offset from UTC (`Clock.utcOffsetMs`). Daylight-saving changes and historical zone offsets are not modelled.
- JsRuntime.ToNumber: `Number()` also accepts whitespace, a sign, a decimal point, an exponent, a hex prefix or `Infinity`. The model treats such slices as `NaN`, which keeps the credential unless it is revoked. Only digit-only slices are converted exactly.
- `Math.ceil` is applied to a floating-point quotient in the source. The model uses exact integer arithmetic. For integral millisecond values below 2^53 the `> 14` test comes out the same, but that equivalence is argued, not proved.
- The `Date` constructor's time clipping is not modelled. Issue dates built from at most four year digits never reach it.
- The TypeScript type assertions (`as AttestationProofRequestFormat`, `as AttestationCredentialFormat`) have no runtime effect. The `names` of a requested attribute group are carried but never read.
- Attestation.Idempotence, Attestation.DeletedExactlyOnce and Attestation.NonAttestationUntouched assume that stored credential ids are unique. The source relies on the wallet for this. When two stored records share an id, deleting one removes both.
