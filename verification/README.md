# DirIO verification model

A Dafny model of three parts of DirIO and proofs about them:

- **the policy engine** (`internal/policy`), which decides every S3 request: statement matching over
  dynamically typed fields, variable substitution and condition evaluation, documents, named policies and
  groups, the staged evaluation, the policy cache, and the middleware in front of it;
- **credential encryption and key rotation** (`internal/crypto`): the keyring file, loading and rotating it,
  encryption with the current key and decryption by fallback, and runs of many processes over one data directory;
- **upload sync** (`cmd/client/cmd/sync.go`): planning from a directory walk and a listing, and execution that
  stops at the first error.

Code that changes state or loops is written as classes and methods; each is proved against functions that say
what it computes. The theorems about those functions either relate them to each other over all inputs or spell out
what they give in the plain data of a request, a file, a directory walk or a run, so that no function is left to
explain itself.

| file | content |
|---|---|
| `GoStrings.dfy`, `Base64.dfy` | the string and base64 routines the code relies on, with their laws |
| `PolicyTypes.dfy`, `Variables.dfy`, `Conditions.dfy`, `Matcher.dfy` | documents, requests and statement matching |
| `PatternProofs.dfy`, `StatementProofs.dfy` | what resource, action and principal patterns reach; what each element of a statement does |
| `PolicyCache.dfy`, `Resolver.dfy`, `Engine.dfy` | cache, metadata resolver, evaluation |
| `DecisionProofs.dfy`, `PrincipalProofs.dfy` | how decisions combine, and what they do not depend on |
| `Validation.dfy`, `Middleware.dfy`, `MiddlewareProofs.dfy` | validators and normalisation; the request-level verdict and whom it admits |
| `Keyring.dfy`, `Crypto.dfy` | key texts and lists; loading, rotating, encrypting and decrypting |
| `CryptoProofs.dfy`, `RotationProofs.dfy` | what is readable over whole runs; what loading and rotating do to the file and to later processes |
| `Sync.dfy`, `SyncProofs.dfy`, `SyncCommand.dfy` | planning and execution; resumption and convergence; the command end to end |

## Where code and documentation part

The model follows the code. The following stated or expected properties are false of it; each is met by
an exact condition or an exact account of what holds instead.

- "Explicit deny always wins" (docs/design/IAM-QUICK-REFERENCE.md:283 and 552, docs/design/IAM-ARCHITECTURE.md:280,
  internal/policy/engine.go:68). The engine stops at the first document that decides, so an allowing bucket policy,
  or an earlier attached policy, hides a later deny. `DenyOverridesExactly` says when engine and rule agree (the rule
  with ownership last, as the engine's own comments order it), `ExplicitDenyCanLose` is the documented example 12, and
  `DenyFirstIsSafe` with `DeniesFirstConsulted` is an arrangement of documents that is safe for every request.
- The owner is asked before explicit deny (docs/design/IAM-QUICK-REFERENCE.md:281-285,
  docs/design/IAM-ARCHITECTURE.md:279; line 226 of the latter says the opposite). The engine asks last:
  `OwnerFirstExactly` compares it with the documented order, `OwnerCanBeRefused` is an owner who is refused.
- Policies should "work even if some variables aren't available" (internal/policy/matcher.go:187), but one
  unavailable variable turns substitution off for every entry of a resource list. `ListVersusEntries` says exactly
  when a list then differs from its entries, in either direction, and `DenyOverList` what that does to a denying
  statement; `OneUnavailableVariableSpoilsTheList` shows both on one list.
- Condition errors are called fail-closed (internal/policy/matcher.go:359, internal/policy/conditions/conditions.go:94).
  A statement whose condition cannot be evaluated decides nothing, which withholds an allow but also lifts a denial:
  `ConditionElement` for every condition, `AddressRestriction` for an address range.
- User ARNs are documented with the user name (docs/design/IAM-ARCHITECTURE.md:31 and 147); the code compares the
  rotatable access key: `UserARNMatches`.
- `sync --delete` to `bucket/backup` also reaches `backup2/...`: `DeleteReach`.
- Sync compares sizes only: `ContentSyncedExactly`.
- Without a key, text that already starts with `enc:v1:` does not survive the round trip: `EncryptRoundTrip`.
- Rotating a keyring that does not load gives one that does not load, unless the old one was blank: `RotationPrepends`.
- The keyring file is rewritten in place. A torn write is the one step that can lose stored values: `TornRotation`.

## Model

| member | source | states |
|---|---|---|
| DecisionProofs.DenyOverridesExactly | internal/policy/engine.go:38-129 | the engine equals deny-overrides with ownership last (the order of its own comments) on exactly the requests where no allowing document comes first with a denying one after it; where they differ the engine allows |
| DecisionProofs.FirstDecisiveVersusMerged | internal/policy/engine.go:115-129 | evaluating documents one by one equals evaluating one document holding all their statements iff the list is not shadowed |
| DecisionProofs.ExplicitDenyCanLose | docs/design/IAM-QUICK-REFERENCE.md:319-352 | for the policy of example 12 on any bucket, a public bucket policy allows every such user what the documented rule denies |
| DecisionProofs.ExplicitDenyAloneStands | docs/design/IAM-QUICK-REFERENCE.md:319-352 | without a bucket policy the same request is explicitly denied |
| DecisionProofs.DenyFirstIsSafe | internal/policy/engine.go:53-129 | if no consulted document with an allowing statement comes before one with a denying statement, the engine meets the rule on the request, whatever it asks |
| DecisionProofs.DeniesFirstConsulted | internal/policy/engine.go:59-73 | that order holds iff it holds of the attached documents and, unless the bucket document cannot allow, none of them can deny |
| DecisionProofs.OwnerMeaning | internal/policy/engine.go:75-86 | a signed-in owner is allowed iff the first deciding document does not deny, an override-mode one iff it allows |
| DecisionProofs.OwnerFirstExactly | docs/design/IAM-QUICK-REFERENCE.md:279-285 | the engine equals the documented owner-before-deny order iff, for an owner, nothing denies first (or override mode is allowed first), and for anyone else the documents are not shadowed |
| DecisionProofs.OwnerCanBeRefused | internal/policy/engine.go:75-82 | a bucket policy denying a folder to everyone refuses the owner, whom the documented order lets in |
| DecisionProofs.DecisionMeaning | internal/policy/engine.go:53-86 | ExplicitDeny iff not admin and the first deciding document denies; Allow iff admin, or the first deciding document allows, or none decides and the signed-in, non-override principal owns the resource; Deny otherwise |
| DecisionProofs.DocumentIsMaximum | internal/policy/engine.go:145-167 | the early-return statement loop is the maximum of its statements in Deny < Allow < ExplicitDeny |
| DecisionProofs.DocumentJoin | internal/policy/types.go:70-77 | a concatenation of statements decides the maximum of its parts |
| DecisionProofs.StatementOrderIrrelevant | internal/policy/engine.go:145-167 | documents with the same statements, in any order and multiplicity, decide alike |
| DecisionProofs.NamedPoliciesCompose | internal/policy/engine.go:119-128 | names compose by first decision; a name that does not resolve can be deleted anywhere |
| DecisionProofs.NameOrderKeepsDecisiveness | internal/policy/engine.go:119-128 | reordering or repeating names never gains or loses a decision |
| DecisionProofs.EditsAreMonotone | internal/policy/engine.go:53-167 | adding an allowing statement to any named policy never takes access away and adding a denying one never gives access, although decisions are by first document |
| PrincipalProofs.AnonymousIndependence | internal/policy/engine.go:69-86 | an anonymous decision is that of the bucket document alone, for any resolver, owners and any user data or service-account fields |
| PrincipalProofs.OverrideIndependence | internal/policy/engine.go:91-111 | an override-mode decision is that of the bucket document, then the embedded one, for any resolver, attachments, parent and owners |
| PrincipalProofs.OverrideMeaning | internal/policy/engine.go:88-111 | an override-mode account gets the bucket document's decision if it makes one, else that of its embedded text if that is non-empty and parses, else a refusal, even as owner |
| PrincipalProofs.SignedInMeaning | internal/policy/engine.go:53-86 | any other signed-in principal gets the bucket document's decision, else the first among its effective names, else access as owner of the bucket or, where there is a key, of the object |
| PrincipalProofs.NoResolverMeaning | internal/policy/engine.go:113-118 | the same without a resolver, where named policies are skipped |
| PrincipalProofs.OnlyEffectivePoliciesMatter | internal/policy/engine.go:115-129 | two metadata stores that agree on the effective names and their documents give the same decision |
| PrincipalProofs.EffectiveNameSources | internal/policy/engine.go:219-246 | a name is effective iff attached directly or by an active group of the user (or of a service account's stored parent) |
| PrincipalProofs.EffectiveOrder | internal/policy/engine.go:219-246 | direct attachments come first, then group by group in index order what each existing group of status "on" attaches |
| PrincipalProofs.OwnBeforeGroups | internal/policy/engine.go:119-128 | a decisive policy attached directly decides before any policy of a group |
| PrincipalProofs.InheritParity | internal/policy/engine.go:219-246 | an inherit-mode service account has its parent's names, identity-stage decision on principal-free documents, and whole decision when the bucket document is principal-free and ownership agrees |
| PrincipalProofs.DecisionAfterWrites | internal/policy/engine.go:173-189 | after any history of loads, updates and deletes a decision is that of the last write touching its bucket: of the loaded map, of the updated document, or without a policy after a delete |
| PrincipalProofs.OtherBucketsIrrelevant | internal/policy/engine.go:133-139 | writes to other buckets change no decision |
| Engine.EvaluatePolicy | internal/policy/engine.go:145-167 | the `hasAllow` loop returns deny if some statement denies, else allow if some allows |
| Engine.PolicyEngine.EvaluateNamedPolicies | internal/policy/engine.go:115-129 | the loop over effective names returns the first decision among the resolvable documents |
| Engine.PolicyEngine.ResolveEffectivePolicyNames | internal/policy/engine.go:219-246 | the appends build exactly the effective names |
| Engine.PolicyEngine.EvaluateIAMPolicies | internal/policy/engine.go:91-111 | final answers are exactly the identity stage's; override mode is always final |
| Engine.PolicyEngine.Evaluate | internal/policy/engine.go:53-86 | the early returns compute the staged specification over the current cache |
| Engine.CheckOwnership | internal/policy/engine.go:261-287 | true iff the user owns the object (for object requests) or the bucket |
| Matcher.EvaluateStatement | internal/policy/matcher.go:309-374 | the statement's effect applies iff all four checks pass; a condition error counts as a mismatch |
| StatementProofs.PrincipalElement | internal/policy/matcher.go:310-320 | a Principal that does not match, or without one a NotPrincipal that does, refuses the request; otherwise both can be taken away |
| StatementProofs.ActionElement | internal/policy/matcher.go:322-332 | the same for Action and NotAction, by the strings they list |
| StatementProofs.ResourceElement | internal/policy/matcher.go:334-344 | the same for Resource and NotResource, with the request's variables |
| StatementProofs.ConditionElement | internal/policy/matcher.go:346-367 | the condition refuses the request if an operator block is no map, or a key has no value in the request or compares with none of its wanted values; otherwise it can be taken away |
| StatementProofs.BareStatement | internal/policy/matcher.go:369-373 | with every element taken away the effect decides |
| StatementProofs.SingleConditionMeaning | internal/policy/conditions/conditions.go:146-196 | one key matches iff the request has a value for it that compares with some listed value, variables filled in if all have values and left as written otherwise |
| StatementProofs.AddressRestriction | internal/policy/conditions/conditions.go:266-274 | a statement restricted to an address range decides nothing without a matching client address and as before with one, whatever its effect |
| StatementProofs.FieldMeaning | internal/policy/matcher.go:116-168 | a field of any shape matches iff a string it lists is equal, or ends in `*` and is otherwise a prefix |
| StatementProofs.ResourceFieldMeaning | internal/policy/variables/variables.go:157-178 | a resource field matches by its texts with variables filled in, formatting items that are no strings, or by its strings as written when some variable has no value |
| Conditions.Evaluate | internal/policy/conditions/conditions.go:95-118 | in whatever order Go visits the condition map, the evaluator matches iff every key of every operator matches |
| Conditions.EvaluateOperator | internal/policy/conditions/conditions.go:122-144 | the same for the keys of one operator; a block that is no map fails |
| PatternProofs.SubsumptionIsInclusion | internal/policy/matcher.go:150-168 | the prefix test decides inclusion of pattern languages, soundly and completely |
| PatternProofs.MutualCoverage | internal/policy/matcher.go:203-236 | lists whose patterns cover each other match the same subjects |
| PatternProofs.DropSubsumed | internal/policy/matcher.go:116-147 | a pattern another entry subsumes may be dropped |
| PatternProofs.BucketScope | internal/policy/matcher.go:239-260 | `arn:aws:s3:::b/x*` matches exactly the objects of bucket b whose non-empty key starts with x |
| PatternProofs.LiteralScope | internal/policy/matcher.go:239-260 | a resource pattern without a wildcard matches exactly the one bucket or object it names |
| PatternProofs.ARNInjective | internal/policy/types.go:49-57 | resources in named slash-free buckets have equal ARNs iff they are equal |
| PatternProofs.HomeDirectoryScope | internal/policy/matcher.go:176-193 | a `b/${var}/` wildcard reaches exactly the variable's own folder, or only the literal text when the variable has no value |
| PatternProofs.VariableFolders | internal/policy/variables/variables.go:77-120 | the request data behind each variable, by the folder its home directory pattern reaches; only the listing parameters may be empty |
| PatternProofs.HomesAreDisjoint | internal/policy/matcher.go:170-193 | no object is in reach of two slash-free user names through one home directory pattern |
| PatternProofs.ResourceListMeaning | internal/policy/matcher.go:176-193 | a list is the disjunction of its entries if all variables are available, and is taken as written otherwise |
| PatternProofs.ListVersusEntries | internal/policy/matcher.go:176-193 | for every list a request is lost (gained) against the entries' own meaning iff some variable is unavailable and no entry (some entry) matches as written while an available entry matches substituted (none matches on its own) |
| PatternProofs.DenyOverList | internal/policy/matcher.go:334-372 | a denying statement over a list stops denying, or starts to, exactly there, given its other checks |
| PatternProofs.OneUnavailableVariableSpoilsTheList | internal/policy/variables/variables.go:140-178 | next to an entry with an unavailable variable, a home entry loses its folder and the list reaches the folders spelled like the references instead |
| PatternProofs.UserARNMatches | internal/policy/matcher.go:88-107 | a user ARN matches exactly the signed-in user whose access key it names |
| PatternProofs.UserARNForm | internal/policy/matcher.go:88-107 | only an IAM ARN whose text after its first `:user/` is the access key matches |
| PatternProofs.PrincipalMeaning | internal/policy/matcher.go:21-107 | a principal field matches iff it names everyone or lists an ARN of the signed-in user; an anonymous request has none |
| Variables.SubstituteAtVariable | internal/policy/variables/variables.go:52-74 | each variable is replaced in place, values are not scanned again, and one without a value is kept and reported |
| Variables.EmptyName | internal/policy/variables/variables.go:43-74 | `${}` is no reference and stays, and what follows it is substituted on its own |
| Variables.NeverClosed | internal/policy/variables/variables.go:43-74 | an opening that is never closed stays |
| PolicyCache.LastWriteWins | internal/policy/cache.go:48-65 | the last write touching a bucket decides what the cache holds for it |
| PolicyCache.HasAgreesWithGet | internal/policy/cache.go:39-74 | Has and Get agree after any history whose loaded maps hold no nil |
| PolicyCache.HasDisagreesExactly | internal/policy/cache.go:39-74 | after any history they disagree on a bucket iff the last write touching it loaded a nil for it |
| PolicyCache.Cache.SetBucketPolicy | internal/policy/cache.go:48-56 | sets or removes one bucket's entry and nothing else |
| PolicyCache.Cache.GetAllBucketPolicies | internal/policy/cache.go:79-87 | a copy that shares nothing with the cache |
| Resolver.Metadata.GetGroupPoliciesForUser | internal/policy/resolver.go:55-70 | the loop returns the ordered concatenation over existing active groups, or the index error |
| Resolver.GrantedThroughGroup | internal/policy/resolver.go:61-68 | a policy appears iff some existing active group of the list attaches it |
| Resolver.DisablingIsRemoving | internal/policy/resolver.go:63-66 | disabling a group equals taking it off the user's group list |
| Validation.ValidatorsAgree | internal/policy/policy_types.go:99-184 | both validators accept the same Action and Resource values and blame the same item |
| Validation.AcceptedExactly | internal/policy/policy_types.go:99-184 | a value is accepted iff absent, a non-empty string, or a non-empty array of non-empty strings |
| Validation.BlamesFirst | internal/policy/policy_types.go:115-131 | a refused array is blamed on its first bad item |
| Validation.ValidExactly | sdk/iam/validation.go:9-142 | a statement is valid iff its effect is Allow or Deny, exactly one of each Action and Resource pair is there, not both principals are, and every field is accepted |
| Validation.Normalize | internal/policy/policy_types.go:239-295 | filling the slice yields the strings of the value, or an error for any other shape |
| Validation.NormalizedExactly | internal/policy/policy_types.go:239-295 | exactly the string and the two array forms of a list of strings normalise to that list |
| Validation.NormalizedMatches | internal/policy/policy_types.go:239-295 | accepted values normalise to non-empty patterns, and matching the raw value equals matching some pattern |
| Validation.ArrayFormsAlike | internal/policy/matcher.go:203-236 | a JSON array and a string slice of the same strings match the same resources, with or without variables |
| Validation.NegationComplements | sdk/iam/validation.go:9-85 | for valid statements NotAction and NotResource split the requests passing the other checks into complementary halves |
| Middleware.CopySourceForms | internal/policy/middleware.go:277-298 | both header forms give the bucket and the whole key |
| Middleware.EvaluateMultiResourceAction | internal/policy/middleware.go:205-273 | deny without a source bucket, else the source's refusal, else the destination's answer |
| Middleware.AuthorizationMiddleware | internal/policy/middleware.go:58-189 | an S3 request reaches the handler iff it is the administrator's or every permission its route action maps to is allowed on the resource of the route or copy header |
| MiddlewareProofs.WhatTheEngineIsAsked | internal/policy/middleware.go:72-162 | a single-resource S3 route of anyone but root is admitted iff the engine allows the mapped permission on the target, with the principal, conditions, variables and recorded owners spelled out from the request |
| MiddlewareProofs.RootIsServed | internal/policy/middleware.go:93-100 | the root key, or a set alternative, passes every policy |
| MiddlewareProofs.OwnersOnly | internal/policy/middleware.go:300-307 | without policies everyone else, also a user whose key equals an unset alternative, is admitted iff signed in and recorded owner of the target and of a copy's source |
| MiddlewareProofs.MarkedAnonymousIsAnonymous | internal/policy/middleware.go:75-76 | a request marked anonymous is judged as one without user or service account |
| MiddlewareProofs.OverrideAccountPasses | internal/policy/middleware.go:85-91 | without a bucket policy an override-mode account is admitted iff its embedded document parses and allows |
| MiddlewareProofs.CopyIsReadAndWrite | internal/policy/middleware.go:205-273 | a copy is admitted iff it names a source bucket and reading the source and writing the target would each be admitted |
| MiddlewareProofs.RoutesAlike | internal/policy/action_mapper.go:57-114 | S3 routes that stand for the same permission are admitted alike |
| MiddlewareProofs.PublicRead | internal/policy/middleware.go:141-177 | a public bucket policy admits everyone to GetObject and HeadObject of its objects |
| Keyring.RotationPrepends | internal/crypto/crypto.go:206-238 | whatever white space the old text has, the rotated text loads iff the old one did or was blank, to the new key over the old ring |
| Keyring.RotationsStack | internal/crypto/crypto.go:202-238 | after n rotations the ring is the n new keys, newest first, over the old ring |
| Keyring.EnvironmentAgreesWithKeyring | internal/crypto/crypto.go:107-158 | moving keyring lines to the two environment variables loads the same keys |
| Keyring.KeyRoundTrip | internal/crypto/crypto.go:253-271 | decoding an encoded key gives it back iff it has 32 bytes, and is an error otherwise |
| Keyring.KeyTextForm | internal/crypto/crypto.go:257-271 | every accepted key text is the prefix followed by the base64 of 32 bytes |
| Keyring.CarriageReturnsIgnored | internal/crypto/crypto.go:137-158 | a keyring saved with carriage returns at its line ends loads the same keys |
| Keyring.BlankEntriesSkipped | internal/crypto/crypto.go:147-157 | blank entries between keys change nothing |
| Keyring.EntriesDecodeExactly | internal/crypto/crypto.go:112-126 | a list of entries loads iff each is blank or a key text on its own |
| Base64.RoundTrip | internal/crypto/crypto.go:254-263 | base64 decoding undoes encoding for every byte string |
| Crypto.LoadOrCreateKeyring | internal/crypto/crypto.go:132-190 | parses the file if there is one, else creates it with the fresh key; each failing step gives an error and leaves the file as that step does |
| Crypto.DecodeList | internal/crypto/crypto.go:147-157 | the loop decodes every non-blank entry in order or fails |
| Crypto.RotateKeyring | internal/crypto/crypto.go:206-238 | the file becomes the new key over the trimmed old text, or an error leaves it as the failing step does; no manager changes |
| RotationProofs.RotationMeaning | internal/crypto/crypto.go:202-238 | a rotation without a fault succeeds and leaves a file that loads to the new key over the old ring, over nothing if the file was missing or blank, and not at all if the old one did not |
| RotationProofs.FailedRotation | internal/crypto/crypto.go:211-235 | a rotation that reports a failure leaves the file as it was unless the write failed |
| RotationProofs.StartAfterRotation | internal/crypto/crypto.go:202-238 | after any run, a rotation makes its key the current one of every later start over the ring before, and what is stored then opens under that key only |
| RotationProofs.LoadingMeaning | internal/crypto/crypto.go:132-190 | loading never touches an existing file, and creates a missing one with the key it returns or fails |
| RotationProofs.EnvironmentComesFirst | internal/crypto/crypto.go:82-104 | a key in the environment replaces the keyring, which stays untouched; without one the other variable is ignored |
| RotationProofs.EnvironmentLoadsExactly | internal/crypto/crypto.go:84-126 | the environment loads iff the key text and every non-blank previous entry decode, whatever the keyring holds |
| Crypto.CryptoPackage.Init | internal/crypto/crypto.go:82-104 | the environment if set, else the keyring; the manager is replaced only on success |
| Crypto.Decrypt | internal/crypto/crypto.go:296-323 | plain text passes, else the first held key that opens the value |
| CryptoProofs.NothingIsLost | internal/crypto/crypto.go:82-104 | after any run of starts, stops, rotations and writes from an empty data directory, with reads, key generation and directory creation failing at will, a started process reads every value ever stored and every running one, however stale, reads its own |
| RotationProofs.EveryValueSurvives | internal/crypto/crypto.go:278-323 | whatever text a running process makes of a value, every process started cleanly at any later point of any run reads the value back from it |
| CryptoProofs.TornRotation | internal/crypto/crypto.go:223-235 | after any run, a rotation whose write is torn loses nothing iff what is left still parses to a ring with every key in use |
| CryptoProofs.HistoryStaysReadable | internal/crypto/crypto.go:206-238 | a running process keeps reading everything stored before it started, whatever happens after |
| CryptoProofs.SealedReadable | internal/crypto/crypto.go:310-322 | a value reads back iff the manager holds its key |
| CryptoProofs.DecryptsExactlySealed | internal/crypto/crypto.go:296-358 | behind the prefix exactly the base64 of a 12-byte nonce and a box sealed under a held key is read |
| CryptoProofs.PlainPassesThrough | internal/crypto/crypto.go:296-303 | text without the prefix passes every manager, and text with it is an error without a key |
| CryptoProofs.StoredForm | internal/crypto/crypto.go:278-290 | the stored text is the prefix and the base64 of nonce and box |
| CryptoProofs.OnlyTheKeySetMatters | internal/crypto/crypto.go:310-322 | decryption depends on the set of keys only |
| CryptoProofs.MoreKeysReadMore | internal/crypto/crypto.go:310-322 | adding keys never makes a readable value unreadable or different |
| CryptoProofs.EncryptRoundTrip | internal/crypto/crypto.go:280-303 | the round trip holds iff there is a key or the text lacks the prefix |
| CryptoProofs.IdealExists | internal/crypto/crypto.go:325-358 | the ideal cipher the theorems assume is consistent |
| Sync.WalkLocal | cmd/client/cmd/sync.go:102-127 | the two maps hold the walked files by remote key, or an error if some entry cannot be read |
| Sync.ListRemote | cmd/client/cmd/sync.go:130-136 | the map holds the stream's entries, or an error if one has size -1 |
| Sync.BuildPlan | cmd/client/cmd/sync.go:138-156 | in any map order, every needed operation exactly once |
| Sync.ExecutePlan | cmd/client/cmd/sync.go:246-342 | operations run in order up to the first that fails; success iff none does; the store holds exactly the effects of the completed ones, plus the failing one's iff its call was made and only the reply was lost |
| SyncCommand.SyncUpload | cmd/client/cmd/sync.go:86-159 | end to end: an unreadable entry, a listing error and a dry run leave the store alone; otherwise a plan is executed with exactly that outcome; with a complete listing and no failure every key ends as the command promises, with --delete the prefix lists exactly the local files, and a prefix that did so before is left alone |
| SyncCommand.LocalFilesMeaning | cmd/client/cmd/sync.go:104-124 | the local map has exactly the walked files, each as its last entry says |
| SyncCommand.RemoteKeyMeaning | cmd/client/cmd/sync.go:112-116 | a remote key is the destination without its final slash, one slash, and the relative path, so no two files share one |
| SyncCommand.CollectedMeaning | cmd/client/cmd/sync.go:130-136 | the remote map has exactly the listed keys, each as its last entry says |
| SyncCommand.CollectedIsListing | cmd/client/cmd/sync.go:130-136 | a stream of all objects under the prefix collects to the listing the other results are about |
| SyncProofs.RunExecutesPart | cmd/client/cmd/sync.go:262-336 | whatever its outcome, a run leaves the effects of a part of its plan, and of all of it on success |
| SyncProofs.Resumable | cmd/client/cmd/sync.go:138-156 | after any part of a plan in any order, planning again asks for exactly the rest |
| SyncProofs.RetriesReachSame | cmd/client/cmd/sync.go:262-336 | however often and wherever a sync is cut short, the first complete run ends where one uninterrupted run would have |
| SyncProofs.SecondRunDoesNothing | cmd/client/cmd/sync.go:246-252 | after a complete run the next plan is empty |
| SyncProofs.Converges | cmd/client/cmd/sync.go:101-158 | where every key stands after a plan, also when the listing was incomplete; nothing outside the prefix changes |
| SyncProofs.MirrorsExactly | cmd/client/cmd/sync.go:150-156 | with --delete and a complete listing the prefix lists exactly the local keys and sizes |
| SyncProofs.OrderIrrelevant | cmd/client/cmd/sync.go:138-156 | all plans of the same inputs leave the same store |
| SyncProofs.ContentSyncedExactly | cmd/client/cmd/sync.go:140-149 | contents agree afterwards iff no object had its file's size but other content before |
| SyncProofs.DeleteReach | cmd/client/cmd/sync.go:111-156 | --delete stays inside the destination directory, whatever the bucket holds, iff the destination is empty or ends in a slash |

## Left out

- Nil principals, resources and documents: the middleware always supplies the first two, the metadata store the third; a nil one makes the code panic or match nothing.
- The typed condition operators (string, number, date, address, bool, null), `%v` formatting and JSON decoding of embedded policies: arbitrary functions, so every theorem holds for any behaviour of theirs.
- `metadata.Manager`: its contents are maps; of its errors only missing entries and an undecodable group index are kept.
- HTTP parsing and responses, logging, the clock and client addresses: inputs, or not modelled.
- ValidatePrincipal and ValidateCondition of internal/policy, which neither the engine nor Statement.Validate calls, and the document-level loop of PolicyDocument.Validate.
- AES-256-GCM, randomness and file permissions: an ideal cipher and arbitrary fresh keys and nonces.
- CryptoProofs.NothingIsLost: takes each keyring start and rotation as one atomic step and excludes failed writes of the file; two first starts racing are outside it, an interrupted write is TornRotation's.
- Middleware.AuthorizationMiddleware: the keys in the body of a bulk delete are not part of the decision; the code asks once, on the bucket (internal/service/s3/s3.go:422-460 checks no permission per key).
- Environment key mode inside whole runs: operators may swap keys there at will. Loading it is modelled.
- Text is a sequence of code points; invalid UTF-8 is not modelled.
- Locks and data races: each cache method is one atomic step.
- Crypto.CryptoPackage.Init: does not model the error texts, only success and failure.
- SyncCommand.SyncUpload: assumes a file keeps the size the walk reported until it is uploaded; each remote call either takes effect or does not.
- SyncProofs.MirrorsExactly: needs a complete listing, because the code recognises a broken one only by an entry of size -1 and not by the entry's error field; Converges says what an incomplete one does.
- The download direction, rendering, progress and the dry-run printout.
- The web console, administration API, startup and configuration.
