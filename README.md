# Tukma back end: resume results store and user creation, in Dafny

This project models two services of the Tukma recruitment back end and proves
properties of the model.

**`ResumeDataService`** keeps the evaluation results of submitted resumes. There
is one record per resume hash: `{id, hash, results, jobId, ownerId}`.

- `saveResumeData` is an upsert keyed by the hash.
  - A non-empty raw payload is first translated by `ResumeResultParser.pythonToJson`.
  - A known hash has only its results overwritten, and only when there is a payload.
  - A new hash needs an existing job, then an existing user, and adds one record with a fresh id.
- The getters filter the repository: by hash, by job, by owner, by (job, owner), or return the full scan.
- `parseResumeResults` decodes stored results with Gson and falls back to the empty map.
- `cleanupDuplicateResumes` is a batch repair.
  - It groups all records under the string key `jobId + "-" + ownerId`.
  - In each group of two or more it sorts by id descending and keeps the first. The rest go to one bulk delete, which is skipped when there is nothing to delete.
  - It reports counts, reading each pair back out of its string key with `split("-")` and `Long.parseLong`.

**`ModifiedUserServices`** creates user accounts and looks them up by username
(the e-mail address).

- `createUser` sets the fields one by one: the password is the encoder's output, `isRecruiter` is `!isApplicant`, and the company name is set for recruiters only. It then saves the account.
- `userExists` and `loadUserByUsername` query the store.

## How the model is built

The project has four files.

**`wrappers.dfy`** holds `Option` and `Result`.

**`resume_key.dfy` (module `ResumeKey`)** models the textual grouping key.

- `Long.toString` of a non-negative `long` is `NatToString`.
- `String.split` with a single-character separator that is not a regular-expression metacharacter, such as `-`, is `JavaSplit`: `SplitAll` and then the removal of trailing empty pieces.
- `Long.parseLong` on ASCII text is `ParseLong`, with its sign, ASCII decimal digit and range rules. `NumberFormatException` becomes `None`.
- `KeyRoundTrip` proves that splitting the key of a pair and parsing both halves gives the pair back. So grouping by the string is grouping by the pair, and the rest of the model keys groups by the pair `(jobId, ownerId)`.

**`resume_data.dfy` (module `ResumeData`)** models the resume store.

- The repository is the `seq<Resume>` field of class `ResumeDataService`. The job and user repositories are the sets of ids they resolve.
- `pythonToJson` and Gson's `fromJson` are function-valued constants. The model does not look inside them.
- `Valid()` is the store invariant:
  - ids are distinct and below the next id to hand out;
  - hashes are unique, so the repository's `Optional` lookup by hash is meaningful;
  - every record references an existing job and user.
- The cleanup is written in the source's imperative form:
  - a first loop (`GroupByPair`) files every record under its pair in a map;
  - a second loop (`CollectDuplicates`, one `TakeGroup` per iteration) runs over the map's keys in an unspecified order. It marks every record but the newest of each group, accumulates the total and records one combination per group;
  - the bulk delete (`DeleteAll`) follows, skipped on an empty list.
- The sort followed by `subList(1, size)` is modelled by its contents:
  - `Newest` is the first record of largest id, which a descending sort places first;
  - `Duplicates` is every other record.
- Method contracts are connected to specification predicates:
  - `Superseded`: some record of the same pair has a larger id;
  - `Reconciled`: one record per pair;
  - `Keys` and `DupKeys`: the pairs present, and those with two or more records;
  - `CleanedFrom` and `ReportDescribes`: the store after the cleanup and the report it returns.

  Lemmas relate these predicates to each other.

**`user_services.dfy` (module `UserServices`)** holds the store of `UserEntity` values, class `ModifiedUserServices`.

- The BCrypt encoder is a function-valued constant `encode(raw, salt)`.
- The random salt BCrypt draws is a parameter of `CreateUser`, so nothing claims that encoding a password twice gives the same hash.

**Behaviour worth noting.**

- `parseResumeResults` can return Java `null`. Gson decodes the stored text `null` (and blank text) to `null`, and the code returns that value unchanged. `ParseResumeResults` returns `Option<ResultMap>`, and `None` stands for that `null`.
- On creation the job is resolved before the user (`ResumeDataService.java:70-74`), and each failure is its own `IllegalArgumentException`. The model's two errors are `JobNotFound` and `UserNotFound`, and the user lookup happens only when the job exists.
- On a known hash the job and user arguments are neither validated nor applied.
- The raw payload is translated before the hash lookup, on both paths. The translator is deterministic, so nothing observable depends on this order.

## Model

| member | source | states |
|---|---|---|
| ResumeKey.NatToString | src/main/java/org/tukma/resume/services/ResumeDataService.java:175 | The decimal rendering of an id is a non-empty digit string with no leading zero, so it has no `-` in it. |
| ResumeKey.ParseLong | src/main/java/org/tukma/resume/services/ResumeDataService.java:195-196 | `Long.parseLong` succeeds only within the `long` range, fails on the empty string, and on a pure digit string in range yields its decimal value. |
| ResumeKey.SplitAll | src/main/java/org/tukma/resume/services/ResumeDataService.java:193 | Cutting a text at every separator gives at least one piece, no piece contains the separator, and joining the pieces with the separator gives the text back. |
| ResumeKey.DropTrailingEmpty | src/main/java/org/tukma/resume/services/ResumeDataService.java:193 | The trailing-empty removal of `split` keeps a prefix of the pieces, every piece it drops is empty, and the last piece it keeps, if any, is non-empty. |
| ResumeKey.JavaSplit | src/main/java/org/tukma/resume/services/ResumeDataService.java:193 | `split` with limit 0 returns the text itself when the separator does not occur. Otherwise it returns the pieces between separators, with only empty pieces dropped from the end. No piece contains the separator. |
| ResumeKey.KeyString | src/main/java/org/tukma/resume/services/ResumeDataService.java:175 | The key of a pair is the job id's rendering, one `-`, then the owner id's rendering; the `-` right after the job id is its only separator. |
| ResumeKey.DigitsOfNat | src/main/java/org/tukma/resume/services/ResumeDataService.java:195-196 | Reading the decimal rendering of a number digit by digit gives the number back. |
| ResumeKey.ParseLongOfNat | src/main/java/org/tukma/resume/services/ResumeDataService.java:195-196 | Parsing the rendering of any non-negative `long` gives the number back. |
| ResumeKey.SplitAllAt | src/main/java/org/tukma/resume/services/ResumeDataService.java:193 | Splitting at a separator preceded by separator-free text yields that text followed by the pieces of the rest. |
| ResumeKey.KeyRoundTrip | src/main/java/org/tukma/resume/services/ResumeDataService.java:193-196 | Splitting the key `jobId-ownerId` at `-` gives exactly two pieces, which parse back to `jobId` and `ownerId`. |
| ResumeKey.KeyInjective | src/main/java/org/tukma/resume/services/ResumeDataService.java:175 | Two pairs of non-negative ids have the same string key only if they are equal, so the string map groups by pair. |
| ResumeData.Select | src/main/java/org/tukma/resume/services/ResumeDataService.java:99-111 | A repository filter keeps every matching record as often as it occurs and no other record, and is no longer than its input. |
| ResumeData.GroupNonEmpty | src/main/java/org/tukma/resume/services/ResumeDataService.java:174-177 | The group of a pair is non-empty exactly when some record carries that pair. |
| ResumeData.NewestIndex | src/main/java/org/tukma/resume/services/ResumeDataService.java:186 | The record a descending sort by id puts first has an id at least every other id, strictly above every id before it. |
| ResumeData.Duplicates | src/main/java/org/tukma/resume/services/ResumeDataService.java:189 | `subList(1, size)` after the sort holds one record fewer than the group, and its records are exactly the group's records with an id below the kept one's. |
| ResumeData.SupersededInGroup | src/main/java/org/tukma/resume/services/ResumeDataService.java:184-189 | A stored record has a same-pair record with a larger id exactly when its id is below the newest record of its group. |
| ResumeData.ReconciledGroupSmall | src/main/java/org/tukma/resume/services/ResumeDataService.java:184 | In a store with one record per pair every group has at most one record. |
| ResumeData.ReconciledCount | src/main/java/org/tukma/resume/services/ResumeDataService.java:210-212 | In a store with one record per pair there are as many distinct pairs as records. |
| ResumeData.ReconciledFacts | src/main/java/org/tukma/resume/services/ResumeDataService.java:182-207 | In a store with one record per pair no record is superseded, no pair has duplicates, and records and pairs are equally many, so a cleanup marks nothing. |
| ResumeData.CleanupSurvivors | src/main/java/org/tukma/resume/services/ResumeDataService.java:174-190 | The records without a newer sibling hold the newest of every group and every record alone in its group, at most one record per pair, and every pair of the input. |
| ResumeData.SurvivorsCover | src/main/java/org/tukma/resume/services/ResumeDataService.java:186-189 | The kept record of every group and every record alone in its group survive, so the survivors cover the same pairs. |
| ResumeData.SurvivorsOnePerPair | src/main/java/org/tukma/resume/services/ResumeDataService.java:186-190 | No two survivors share a (job, owner) pair. |
| ResumeData.GroupByPair | src/main/java/org/tukma/resume/services/ResumeDataService.java:174-177 | The grouping loop maps every pair that occurs to its non-empty group, in repository order, and maps nothing else. |
| ResumeData.GroupsOfFacts | src/main/java/org/tukma/resume/services/ResumeDataService.java:172-177 | The map's keys are the pairs of the store, its groups carry their pair and distinct ids, and its groups of two or more are the pairs with duplicates. |
| ResumeData.TakeGroup | src/main/java/org/tukma/resume/services/ResumeDataService.java:183-201 | One iteration keeps the loop's invariants. A group of two or more adds its non-newest records to the deletion list, adds their number to the total, and records its pair (read back from the string key) with that number. A group of one changes nothing. |
| ResumeData.CollectDuplicates | src/main/java/org/tukma/resume/services/ResumeDataService.java:182-202 | After the loop over all groups, in any order, the deletion list holds exactly the non-newest records of every group. The total is its length. There is one combination per group of two or more, carrying the group size minus one. |
| ResumeData.ScannedAll | src/main/java/org/tukma/resume/services/ResumeDataService.java:182-202 | The groups together hold exactly the records of the store, so the sizes of the groups add up to the number of records. |
| ResumeData.MarkedAreSuperseded | src/main/java/org/tukma/resume/services/ResumeDataService.java:182-190 | A record is marked for deletion exactly when it is stored and a record of the same pair has a larger id. |
| ResumeData.PlanCleanup | src/main/java/org/tukma/resume/services/ResumeDataService.java:169-213 | The marked records are exactly the superseded ones. The report counts every record as processed and removes records minus distinct pairs. It names each pair with duplicates once, with its group size minus one. |
| ResumeData.FindHash | src/main/java/org/tukma/resume/services/ResumeDataService.java:53 | The lookup by hash returns the position of the first record with that hash, and nothing exactly when no record has it. |
| ResumeData.FindHashUnique | src/main/java/org/tukma/resume/services/ResumeDataService.java:53 | With unique hashes the lookup by a stored record's hash finds that record. |
| ResumeData.DeleteAll | src/main/java/org/tukma/resume/services/ResumeDataService.java:206 | After the bulk delete, a record is in the store exactly when it was stored and not in the deletion list. |
| ResumeData.DeleteNothing | src/main/java/org/tukma/resume/services/ResumeDataService.java:205-207 | Deleting records none of which is stored leaves the store exactly as it was. |
| ResumeData.ReplaceResultsValid | src/main/java/org/tukma/resume/services/ResumeDataService.java:57-60 | Overwriting one record's results keeps the store invariant. |
| ResumeData.AppendValid | src/main/java/org/tukma/resume/services/ResumeDataService.java:65-79 | Adding a record with the next id, a new hash and existing references keeps the store invariant. |
| ResumeData.DeletionOutcome | src/main/java/org/tukma/resume/services/ResumeDataService.java:204-207 | Deleting the superseded records keeps the store invariant and leaves one record per pair: the newest, for every pair that had records. An empty deletion list leaves the store unchanged. |
| ResumeData.CleanupStore | src/main/java/org/tukma/resume/services/ResumeDataService.java:169-213 | The cleanup keeps the store invariant, leaves exactly the non-superseded records, one per pair, and returns the report. On a store with one record per pair it changes nothing and reports zero removed and zero combinations. |
| ResumeData.ResumeDataService.TranslatedResults | src/main/java/org/tukma/resume/services/ResumeDataService.java:47-50 | There is a translated payload exactly when the raw payload is present and non-empty, and it is `pythonToJson` of the raw payload. |
| ResumeData.ResumeDataService.GetResumeByHash | src/main/java/org/tukma/resume/services/ResumeDataService.java:89-91 | The lookup returns a stored record with that hash, and nothing exactly when no stored record has that hash. |
| ResumeData.ResumeDataService.GetResumesByJob | src/main/java/org/tukma/resume/services/ResumeDataService.java:99-101 | The result holds exactly the job's records, each as often as it is stored. |
| ResumeData.ResumeDataService.GetResumesByUser | src/main/java/org/tukma/resume/services/ResumeDataService.java:109-111 | The result holds exactly the user's records, each as often as it is stored. |
| ResumeData.ResumeDataService.GetResumesByJobAndUser | src/main/java/org/tukma/resume/services/ResumeDataService.java:142-144 | The result holds exactly the records of that job owned by that user, each as often as it is stored. |
| ResumeData.ResumeDataService.GetResumeByJobAndUser | src/main/java/org/tukma/resume/services/ResumeDataService.java:153-155 | The single-record query yields nothing exactly when no record has that pair. Otherwise it yields the record of that pair, and it fails exactly when the pair has several records. |
| ResumeData.ResumeDataService.ReconciledLookupSucceeds | src/main/java/org/tukma/resume/services/ResumeDataService.java:153-155 | On a store with one record per pair, as the cleanup leaves it, the single-record query never fails. |
| ResumeData.ResumeDataService.ParseResumeResults | src/main/java/org/tukma/resume/services/ResumeDataService.java:119-133 | Absent or empty results, and results Gson cannot parse, give the empty map. Otherwise the result is Gson's decoding of the stored text: its map when it decodes to one, and `null` exactly when it decodes to null. |
| ResumeData.ResumeDataService.SaveResumeData | src/main/java/org/tukma/resume/services/ResumeDataService.java:45-81 | On a known hash, without a payload, the call returns the record and changes nothing. With a payload only that record's results change, to the translation. On a new hash there is an error for an unknown job, then one for an unknown user, and the store is unchanged. Otherwise exactly one record with the next id, the hash, job, owner and translated results is appended. Resubmitting what is stored changes nothing, and the returned record is what the hash now finds. The invariant is kept. |
| ResumeData.ResumeDataService.CleanupDuplicateResumes | src/main/java/org/tukma/resume/services/ResumeDataService.java:163-216 | Only the resume field changes and the invariant is kept. Exactly the non-superseded records remain, one per pair and every pair kept. The report matches. A second cleanup (on a reconciled store) leaves the store as it is and reports zero removed and zero combinations. |
| UserServices.NotFoundMessage | src/main/java/org/tukma/auth/services/ModifiedUserServices.java:31 | The not-found message embeds the username verbatim at a fixed position. |
| UserServices.FindByUsername | src/main/java/org/tukma/auth/services/ModifiedUserServices.java:30 | The lookup by username returns the position of the first account with that username, and nothing exactly when there is none. |
| UserServices.ModifiedUserServices.UserExists | src/main/java/org/tukma/auth/services/ModifiedUserServices.java:34-36 | True exactly when some stored account has that username. |
| UserServices.ModifiedUserServices.LoadUserByUsername | src/main/java/org/tukma/auth/services/ModifiedUserServices.java:28-32 | Returns the first stored account with that username. It fails, with the message naming the username, exactly when no account has it. |
| UserServices.ModifiedUserServices.CreateUser | src/main/java/org/tukma/auth/services/ModifiedUserServices.java:38-53 | Appends exactly one account and returns it. The account gets the next id, which no stored account has, and the id counter advances by one. It copies username, first and last name, and the password is `hashPassword` of the raw password. `isRecruiter` is `!isApplicant` and the company name is stored only for recruiters. The username then exists, and is found as this account when it was new. |

## Left out

- Persistence plumbing: JPA transactions and entity identity are not modelled. Repositories are in-memory sequences of values. Ids come from a counter in the store (`nextId`). `save` of a new entity returns it with that id.
- The job and user entities: they are not part of this model. The job and user repositories are reduced to the sets of ids they resolve.
- `ResumeResultParser.pythonToJson`: it is not part of this model. It is an uninterpreted deterministic function, so its quote and literal substitutions are not modelled.
- Gson (`fromJson`): it is a foreign library. It is an uninterpreted function with three outcomes: a decoded map, `null`, or an exception.
- `ResumeData.JsonValue`: the decoded attribute values are scalars only (number, string, boolean, null). Gson decodes an `Object` value to a nested map or list as well, and those values are not modelled. Numbers are modelled as mathematical reals, not as IEEE `double` values.
- `ResumeKey.JavaSplit`: a separator that is a regular-expression metacharacter (such as `.`) matches differently in Java's `split`. The model covers literal separators only, which includes the `-` of the grouping key.
- `ResumeKey.ParseLong`: Java's `Long.parseLong` also accepts non-ASCII Unicode decimal digits, for which the model returns `None`. The grouping key's pieces are ASCII renderings, so the cleanup never reaches that case.
- BCrypt (`BCryptPasswordEncoder.encode`): it is a salted, random, foreign encoder. It is an uninterpreted function of the raw password and a salt the caller supplies, and nothing is claimed about it being reversible or deterministic.
- Timestamps, `src/main/java/org/tukma/interview/models/CommunicationResults.java` and `src/main/java/org/tukma/jobs/repositories/JobRepository.java`: they hold clock calls and derived query declarations only.
- Concurrency: the model is sequential. It does not cover the lookup-then-insert race of `saveResumeData` or the scan-then-delete race of the cleanup.
- Hash uniqueness: it is a store invariant (`Valid`), not enforced by the repository. The code relies on it by reading the hash lookup as an `Optional`.
- `HashMap` iteration order: the second cleanup loop takes the groups in an order left open (`:|`). So the report's combinations are specified as a set of pairs with counts, not as a list order. The order of the deletion list is not specified either, because only its contents reach `deleteAll`.
- `ResumeKey.LongId`: ids are non-negative `long` values. For a negative job id the key `-1-2` splits into `["", "1", "2"]` and `parseLong("")` throws. The model restricts ids to the non-negative range that generated ids occupy.
- `ResumeData.CleanupReport`: `totalDuplicatesRemoved` is a Java `int` in the source and is modelled as an unbounded `nat`, because a store of more than 2^31 records is out of scope. The resume counter `nextId` is likewise unbounded rather than a `long`.
- `ResumeData.ResumeDataService.GetAllResumes`: the full scan has no contract of its own; it is the `resumes` field.
- `UserServices.FindByUsername`: with several accounts of one username, Spring Data's single-result query would throw. The model returns the first match. The `createUser` modelled here does not prevent such duplicates; its callers are not part of this model.
- `UserServices.ModifiedUserServices.HashPassword`: it has no contract of its own. It is the encoder applied to the raw password and salt.
