# Keyfold, modelled and verified

Keyfold encrypts files of a git repository and values of Kubernetes Secrets. Most of its code calls
git, gpg and the apiserver; what is delicate is the order of those calls, the guards in front of
them, and the formats and bindings of what they leave behind. This project models that logic in
Dafny and proves what it keeps over whole runs, with a failure allowed at every single step.

`dafny verify dfyconfig.toml` checks everything.

## How it is modelled

- Encryption and gpg wrapping are ideal: opening succeeds exactly for the key and the associated data
  (or the recipient) used to seal. Keys are numbered in the order they are generated. On bytes this view is
  justified by `EnvelopeFormat`, for the printer and parser of the envelope.
- The repository commands are classes whose methods change the worktree, the index, the key files and
  the config in place. Every call may fail: `FileSystem.faults` counts the failures that stop a command and
  `FileSystem.refusals` those of git updates a command carries on without. A crash is a run whose remaining
  writes all fail. The log of completed writes is shown to be `Legal`, and `Lifecycle` proves what every
  prefix of every legal run keeps. `Runs` composes the commands: any sequence of them, by anybody, with the
  user's own edits in between.
- Everybody has their own secret keys and their own machine, whose global config may list recipients. The
  effective recipients are the committed list together with what any of those machines lists.
- Two histories are kept beside the disk: the keys the env backend handed to its caller and the keys init
  replaced. With the file backend both stay empty, with gpg the first, and the second as long as init makes no
  key: then the two key files on disk open everything at every moment (`DiskKeysSufficeWithoutInit`, `RunAll`).
- A GitSecret object is a record plus a `World` of content keys and of who has ever held which of them.
- The controller is a class over an apiserver whose calls may fail and whose Secrets anybody may change
  between the ownership check and the write. Its contracts hold from every state; `Operator` composes them with
  unsealing into runs with spec edits, drift and changes of the keyring in between.
- Each method is proved against functions of the old state; the theorems are lemmas about those functions.

| module | what it covers |
|---|---|
| `EnvelopeFormat`, `Text` | envelope bytes, associated data, sizes |
| `Content`, `Lifecycle`, `Commands`, `Runs` | lock, unlock, rotate-keys, adduser, removeuser, init, and runs of them |
| `K8sValue` | per-value encryption of manifests |
| `Hooks`, `History` | pre-commit, verify, pre-push over the commit graph |
| `Sealer`, `RecipientRoles`, `Recipients` | the GitSecret object, its recipients and their roles |
| `Reconciler`, `Operator` | the controller, and its reconciles of a sealed object over time |
| `Glob`, `Config`, `Policies` | path selection, the global config, and what a loaded config means to commands and hooks |
| `MetricsAuth` | the authorization cache |
| `Lists`, `Sorting`, `Fingerprints`, `Wrappers` | helpers |

## What the proofs found

Where the code does less than its comments or its callers might hope for, the model follows the code, a
lemma shows a concrete case, and the exact condition is proved.

- **rotate-keys is "safe to re-run"** only in the sense that nothing is lost. After a write failed part-way
  the old key is still at `key_source`, so a re-run gets past its read phase iff not one file had been rotated
  (`RerunProceedsIffNothingMoved`). That same refusal is what protects `key_source.new` from being overwritten
  while a file depends on it (`StrandedFileStopsRotation`).
- **init can lose files.** A gpg key that no local secret key opens reads as "no key", and init writes a new one
  over it. With the keys then on disk everything is readable iff no managed file needed the replaced one
  (`InitLosesFilesIff`); `InitCanLoseFiles` is a repository init accepts and loses. The access list is kept even
  then, and no later command makes it worse (`RunAll`).
- **Index and worktree agree on rotated paths** unless git refused an update, which rotation ignores
  (`Context.RotateKeys`, its `refusals` clause).
- **Rotating on a machine that selects fewer files** drops the key the others need: the new key opens everything
  iff no file that was not selected holds ciphertext (`NarrowRotationStrandsIff`, `NarrowRotationExample`). A
  global config's patterns are a way to get there.
- **removeuser of a recipient some machine's global config names** takes the key away now, but on exactly those
  machines the effective list names them again on the next load (`Context.RemoveUser`).
- **adduser whose last rename fails** leaves the recipient listed without access, and a repeated adduser answers
  "already present" (`UnpromotedIsStuck`, with the exact clause in `Context.AddUser`).
- **pre-push inspects changed paths only**, except at HEAD. Every pushed tree is clean iff no commit of the range
  other than HEAD starts to protect an unchanged path that is not sealed (`AcceptedPushIsCleanIff`). Pushing such
  a branch while HEAD is elsewhere is accepted (`WideningOverPlaintextIsAccepted`); with HEAD at its tip the
  authenticated check refuses it (`WideningAtHeadIsRefused`).
- **A global config widens protection of a path exactly if its patterns, tried in order, answer on that path**
  (`GlobalOnlyWidens`), as well-formed ones always do. Config validation looks at the last segment of a pattern
  only, so a config that loads can hold a pattern that errs and takes paths out of the selection
  (`MalformedGlobalCanNarrow`). `ErrsOnSomePathIff` says which patterns can err at all.
- **A global config does supply `repo_id`** when the repository has none (`GlobalSuppliesRepoId`), although the
  comment at internal/config/config.go:299 says it never does.
- **Sealing does not check the limits unsealing enforces**: `UnsealOfSeal` gives the exact bound, 1024 entries
  of 786369 bytes.
- **A rewrap alone does not lock anyone out**: whoever it removes can no longer unseal, yet reads every current
  value with the content key they kept (`RewrapAloneIsInsufficient`); a rekey or set does
  (`ResealLocksOutOthers`). After any run exactly those can still read to whom the key has been wrapped since the
  last rekey or set (`ReadersAreWrappedSince`).
- **The controller on the real apiserver never quite settles**: a store that folds `stringData` into `data`
  makes CreateOrUpdate see a difference each time (`SyncSettlesIff`).
- **Taking over a predecessor's Secret is two writes.** If only the first happens the Secret has no controller,
  and without `adopt` the next reconcile reports a conflict (`ReleaseAloneStrands`).
- **The ownership check and CreateOrUpdate race.** A Secret found only by the latter, which the check would have
  refused, is overwritten iff it has no controller, or that of a same-named object of the current group with
  another uid (`LateSecretIsTakenIff`, `LateSecretExample`).
- **Two controller references** can result in one odd case only (`OneControllerIff`, `TwoControllersExample`).
- **The metrics cache can be out of date by more than its TTL**: entries are stamped when they are stored, not when
  the review was asked. A hit is one the review allowed less than a TTL and a review timeout ago
  (`HitAgreesWithReview`, `Serve`), and any such allow can be the answer (`StaleHit`). So a hit agrees with the
  review iff such an allow still stands (`HitsAgreeIff`); with the minute and the ten seconds of the code a request
  refused for the whole last minute can still be let in (`TtlAloneIsNotEnough`, `StaleHitAfterAMinute`).
- **Envelope versions can be confused** if a version 1 caller's associated data begins with a version 2 header
  (`RelabelledBlobOpens`); without that, opening is exact (`OpensExactlyAsSealed`).

## Model

| member | source | states |
|---|---|---|
| Lifecycle.LegalRunsAreSafe | internal/cli/rotate.go:47-254 | after any prefix of any run whose writes respect their guards, every managed ciphertext opens with the key at key_source, the one at key_source.new, one handed out or one init replaced, and only listed identities can unwrap those on disk |
| Lifecycle.DiskKeysSuffice | internal/cli/rotate.go:47-254 | while no key was handed out and init replaced none, key_source and key_source.new open every managed ciphertext at every intermediate state |
| Lifecycle.DiskKeysSufficeWithoutInit | internal/cli/rotate.go:47-254 | with the file backend always, and with gpg as long as init makes no key, every managed ciphertext opens under key_source or key_source.new at every intermediate state |
| Lifecycle.HistoriesStay | internal/cli/rotate.go:174-181 | only the env backend hands keys out, and only init with gpg replaces one |
| Lifecycle.LegalRunsKeepMeaning | internal/cli/rotate.go:47-60 | over any such run a managed file means what the user last made it mean |
| Lifecycle.ManagedFileOpens | internal/cli/rotate.go:47-60 | a managed whole-file envelope opens, for its own path and with a known key, to the user's last plaintext |
| Lifecycle.ManagedValueOpens | internal/cli/rotate.go:104-154 | every encrypted value of a managed manifest opens, for its slot and object identity and with a known key, to what the user's last version held there |
| Lifecycle.OverwriteIsSafeIffUnused | internal/cli/rotate.go:156-172 | overwriting key_source.new (or key_source) keeps all files readable with the keys on disk iff no managed file needs the key it held |
| Lifecycle.MovedContentKeepsMeaning | internal/cli/rotate.go:183-200 | what rotation writes for a path means the same and needs only the new key, under the path's own associated data |
| Lifecycle.AllowedKeepsSafe | internal/cli/rotate.go:202-251 | each guarded write keeps readability, the access list and the freshness of keys |
| Lifecycle.AllowedKeepsBounded | internal/cli/rotate.go:211-213 | nothing known or in the index is ever sealed under a key that has not been generated |
| Lifecycle.WriteKeepsMeaning | internal/cli/rotate.go:202-237 | one write of a command changes no managed file's meaning and removes none |
| Lifecycle.OpeningIsAllowed | internal/cli/lock.go:56-98 | replacing a managed envelope by what it opens to is a guarded write, and the payload is not itself taken for an envelope |
| Content.ResealKeepsMeaning | internal/cli/rotate.go:193-200 | resealing a manifest keeps its identity, order, plain values and the rest of the document, and leaves it needing the new key only |
| Content.SealedFileOpensAtHome | internal/cli/fileenc.go:27-57 | a sealed file opens iff key and path agree and, if it was sealed with a repository id, the repository too |
| Content.OpenedWasSealedHere | internal/cli/fileenc.go:40-57 | what opens was sealed for the path with the key, in this repository or before it had an id, and nothing else |
| Content.SealedValueOpensAtHome | internal/cli/k8svalue.go:35-45 | a sealed value opens iff key, file, name and object agree |
| Commands.FileSystem.EveryStateSafe | internal/cli/rotate.go:47-60 | every state the disk was in during any sequence of commands, init included, is safe |
| Runs.RunAll | internal/cli/rotate.go:47-60 | any commands by anybody on any machine with failures anywhere, and edits in between: every state passed through was safe and access-listed, every file means what its user last made it mean, and with the file backend, or with gpg and no further init, key_source and key_source.new opened everything all along |
| Runs.Perform | internal/cli/context.go:26-46 | each single command, init, edit or export keeps the run legal from every state, whatever fails, and only init replaces a key |
| Commands.Load | internal/cli/context.go:26-46 | a command starts with the recipients merged from the machine's and the committed list and a backend that wraps to them, or not at all for an invalid config |
| Commands.ValidRecipientsMeans | internal/config/config.go:337-344 | the merged recipients are valid iff every listed one is a full fingerprint and, for gpg, there is one |
| Commands.Context.EncryptPaths | internal/cli/lock.go:14-52 | exactly the touched paths were plaintext and are sealed for their path under the current key; success means all are envelopes; it fails only for a fault, a missing file or no key; the skip-worktree bits of touched paths are cleared; without a key nothing changes |
| Commands.Context.EncryptPath | internal/cli/lock.go:19-50 | one path: an envelope is left alone, anything else is sealed in place |
| Commands.Context.DecryptPaths | internal/cli/lock.go:56-98 | exactly the touched paths were envelopes opening for their path and now hold the payload; it fails only for a fault, no key, or a file that does not open; without a key nothing changes |
| Commands.Context.DecryptPath | internal/cli/lock.go:61-96 | one path: plaintext is left alone, an envelope is opened in place |
| Commands.Context.Lock | internal/cli/lock.go:102-108 | all matched files end as envelopes, or the failure is accounted for; index and keys untouched; without a key nothing changes; whoever gpg does not open the key for can do nothing, and with the key at hand only a missing file or a fault stops it |
| Commands.Context.Unlock | internal/cli/lock.go:112-118 | all matched files end as plaintext, or the failure is accounted for; index and keys untouched; without a key nothing changes; whoever gpg does not open the key for can do nothing, and with the key at hand only a file that does not open or a fault stops it |
| Commands.DecryptUndoesEncrypt | internal/cli/lock.go:14-98 | a plaintext file locked and then unlocked is as it was, and both report it as touched |
| Commands.Context.PlanFiles | internal/cli/rotate.go:72-102 | the file plans cover all matched files in order with their plaintext; failure means a fault or a file that does not open under the old key |
| Commands.Context.PlanManifests | internal/cli/rotate.go:104-154 | the value plans are sound, and complete for every encrypted slot of every manifest; failure means a fault or a manifest that does not open |
| Commands.Context.PlanValues | internal/cli/rotate.go:135-150 | succeeds iff every value of the manifest opens, and then plans exactly the encrypted slots |
| Commands.Context.ReadPhase | internal/cli/rotate.go:62-154 | success proves every managed file opens under the old key alone, before anything is changed |
| Commands.Context.GenerateStaged | internal/cli/rotate.go:156-181 | a fresh key is staged at key_source.new (in memory for env), wrapped to the backend's list; failure changes nothing |
| Commands.Context.SealFiles | internal/cli/rotate.go:183-191 | every plan is sealed for its path under the new key, in memory |
| Commands.Context.SealValues | internal/cli/rotate.go:193-200 | overwriting the planned value nodes one by one yields exactly the resealed manifests |
| Commands.Context.SealPhase | internal/cli/rotate.go:183-200 | a sealing failure leaves files, index and key_source untouched and at most drops the staged key |
| Commands.Context.CleanupStagingKey | internal/cli/rotate.go:276-286 | removes the staged key, or leaves it; never while a file depends on it |
| Commands.Context.WriteFiles | internal/cli/rotate.go:202-218 | exactly a prefix of the matched files moved to the new key; index entries follow where git took the update |
| Commands.Context.WriteManifests | internal/cli/rotate.go:220-237 | exactly a prefix of the planned manifests moved to the new key |
| Commands.Context.WritePhase | internal/cli/rotate.go:202-237 | at every stop all files are readable with the old and new key; on success with the new one alone |
| Commands.Context.WriteAndPromote | internal/cli/rotate.go:202-251 | the staged key takes key_source's place only after every file was written |
| Commands.Context.RotateKeys | internal/cli/rotate.go:61-254 | whatever fails, exactly the reported paths moved and all are readable; a return before the write loop leaves files and key_source alone; success leaves everything under a fresh key wrapped to the backend's list; it succeeds or fails exactly as the state and faults dictate; index and worktree agree unless git refused; env's key is in every result after a write; no other backend hands a key out, and where the keys on disk sufficed they still do; whoever gpg does not open the key for can do nothing |
| Commands.RotationKeepsMeaning | internal/cli/rotate.go:183-237 | each managed file means what it meant, each rotated one opens under the new key with its own associated data to just that, plain values and the rest of each manifest are unchanged |
| Commands.IndexAgreesIffTaken | internal/cli/rotate.go:211-217 | from every safe disk, index and worktree agree on a rotated path iff git took the update |
| Commands.NarrowRotationStrandsIff | internal/cli/rotate.go:67-71 | rotating where fewer paths are selected leaves the rest readable iff none of it is ciphertext |
| Commands.NarrowRotationExample | internal/cli/rotate.go:67-71 | a safe repository whose one file is stranded by a rotation that does not select it |
| Commands.RotatedLeavesOldKey | internal/cli/rotate.go:94-100 | once a path has been rotated the old key no longer opens the managed files |
| Commands.RerunProceedsIffNothingMoved | internal/cli/rotate.go:54-60 | after a failed rotation a re-run gets past its read phase iff no file had been rotated |
| Commands.StrandedFileStopsRotation | internal/cli/rotate.go:94-100 | while a managed file depends on key_source.new, rotation fails before it could overwrite it |
| Commands.OpensUnderIsReadable | internal/cli/rotate.go:72-154 | if the read phase passes under a key, no managed file needs any other key |
| Commands.MovedIsReadable | internal/cli/rotate.go:202-237 | at any point of the write loops the old keys plus the new one read everything; once all is moved the new one does |
| Commands.Context.PersistGPGRecipients | internal/cli/rotate.go:265-270 | for gpg the list just wrapped to becomes the committed list; otherwise nothing changes |
| Commands.Context.RotateCommand | internal/cli/rotate.go:256-270 | after the whole command the identities able to unwrap key_source are exactly the committed list; files as for RotateKeys |
| Commands.Context.AddUser | internal/cli/adduser.go:23-84 | already present is answered exactly for a listed recipient; success keeps the key and widens its readers by exactly the recipient, listed in the committed config; every other outcome leaves key_source as it was, has a stated cause and at most lists the recipient; whoever gpg does not open the key for can do nothing |
| Commands.Context.StageSavePromote | internal/cli/adduser.go:54-81 | a failure between any two of staging, saving and promoting never grants access to someone the config does not list |
| Commands.UnpromotedIsStuck | internal/cli/adduser.go:71-79 | when only the last rename failed, every later load on any machine lists the recipient, so a re-run answers already present, while key_source still shuts them out |
| Commands.Context.RemoveUser | internal/cli/removeuser.go:21-68 | succeeds only for a listed recipient that is not the last, when rotation can; success leaves a fresh key wrapped to the reduced list, equal to the committed one, reading everything; a failed rotation leaves config and key_source alone; no outcome loses a file's meaning; on exactly the machines whose global config names the recipient the next load lists them again; whoever gpg does not open the key for can do nothing |
| Commands.Context.RotateUnder | internal/cli/removeuser.go:52-59 | rotating in the throwaway context wraps the new key to exactly the reduced list, or leaves key_source alone; without the key nothing changes |
| Commands.Context.Find | internal/cli/removeuser.go:25-34 | the index of a configured recipient, if there is one |
| Commands.RemovedOnce | internal/cli/removeuser.go:36-39 | cutting the found index out of a duplicate-free list removes just that identity |
| Commands.InitKey | internal/cli/init.go:55-124 | without a failure the disk is exactly the initialised one; with one it is what init had reached: untouched, configured, or with the merged recipients committed; a key is generated iff the config is usable and Get finds none, readable by exactly the committed and effective list; a key that can be had is kept, and so is a committed list unless a gpg key is made |
| Commands.GenerateFirst | internal/cli/init.go:97-121 | the merged recipients are saved before the key wrapped to them is written, and a failure leaves the disk before or after the first of the two |
| Commands.InitLosesFilesIff | internal/cli/init.go:97-117 | after init the keys on disk open every managed file iff none needed a key it replaced |
| Commands.InitCanLoseFiles | internal/cli/init.go:97-117 | a safe repository with a usable config whose files the initialised disk no longer opens |
| EnvelopeFormat.ParseEnvelope | crypto/envelope.go:97-122 | the offset-walking parser computes the parse relation, and what it accepts is one header plus ciphertext; each refusal but that of an unknown cipher has its exact cause |
| EnvelopeFormat.PrintedParses | crypto/envelope.go:60-78 | parsing a printed envelope recovers cipher, header, version and ciphertext |
| EnvelopeFormat.ParsedIsPrinted | crypto/envelope.go:97-122 | every accepted byte string is the printing of what was parsed |
| EnvelopeFormat.AcceptedIffPrinted | crypto/envelope.go:60-122 | the parser accepts exactly what the printer prints |
| EnvelopeFormat.SealedOpens | crypto/envelope.go:48-133 | what was sealed opens under the same key and associated data |
| EnvelopeFormat.OpensExactlyAsSealed | crypto/envelope.go:82-133 | an envelope opens exactly for the sealing key, version, cipher and associated data |
| EnvelopeFormat.RelabelledBlobOpens | crypto/envelope.go:82-90 | a version 2 ciphertext relabelled version 1 opens if the caller passes header plus data, so the proviso is needed |
| EnvelopeFormat.FileOpensOnlyAtHome | internal/cli/fileenc.go:27-57 | a sealed file opens exactly under its key, at its path and, when bound, in its repository |
| EnvelopeFormat.K8sAadBindsEveryPart | internal/cli/k8svalue.go:43-45 | the associated data of a value determines path, key and object identity |
| EnvelopeFormat.ObjectAadBindsEveryPart | internal/sealer/sealer.go:36-41 | the associated data of an entry determines namespace, name and key |
| EnvelopeFormat.LargestValue | internal/sealer/sealer.go:31-34 | a value fits the encoded limit iff it has at most 786369 bytes (section 2.8 of RFC 8439, section 4 of RFC 4648) |
| K8sValue.LintManifest | internal/cli/k8svalue.go:242-291 | fails exactly for an unparsable or unidentified manifest, else reports each flagged entry with its reason and no other; an empty report means plain values are allowlisted and the others carry no anchor and open, or parse where there is no key |
| K8sValue.DecryptManifest | internal/cli/k8svalue.go:148-223 | succeeds iff every ciphertext opens without an anchor and there is one, and then replaces exactly those by their plaintext; each failure has its exact cause, and a bad value is the first one |
| K8sValue.CleanIffNoProblems | internal/cli/k8svalue.go:264-290 | the report is empty iff no entry is flagged |
| K8sValue.PlainManifestIsCleanIff | internal/cli/k8svalue.go:260-276 | a manifest of plain values is clean iff each of them is allowlisted, whatever the key |
| K8sValue.LintAgreesWithDecrypt | internal/cli/k8svalue.go:148-291 | on every manifest: the authenticated lint is clean iff it is identified, every value decrypts without an override and every plain value is allowlisted; decrypt then refuses iff nothing is encrypted |
| K8sValue.StructuralLintIsWeaker | internal/cli/k8svalue.go:235-289 | the structural lint flags a subset of what the authenticated lint flags |
| K8sValue.OverrideCannotRetarget | internal/cli/k8svalue.go:136-178 | a manifest that decrypts for its own namespace is refused under any other |
| K8sValue.SealedValueIsAccepted | internal/cli/k8svalue.go:91-128 | a freshly sealed value passes both lints and decrypts in its object |
| Hooks.HookPreCommit | internal/cli/hooks.go:25-98 | only matched staged index entries are rewritten, to envelopes of themselves; the worktree is untouched; success means every staged path is in order, refusal has a stated cause; the skip-worktree bits are as before, and set on what was sealed, unless git refused; whoever gpg does not open the key for changes nothing |
| Hooks.SealStaged | internal/cli/hooks.go:39-72 | one staged path: sealed in the index iff it is selected plaintext, its skip-worktree bit set again |
| Hooks.LintStaged | internal/cli/hooks.go:74-97 | passes only if every staged manifest lints clean, refuses only for one that does not |
| Hooks.VerifyTree | internal/cli/verify.go:51-98 | reports exactly the paths that do not authenticate, leak a value or are the raw key; errs exactly for malformed patterns and unlintable manifests; when it reports nothing every selected file opens for its path in this repository |
| Hooks.VerifiesMeans | internal/cli/verify.go:26-99 | nothing is reported iff every selected file opens for its path in this repository, every manifest passes the authenticated lint, and the raw key is not in the tree |
| Hooks.AllowlistIsPerManifest | internal/cli/verify.go:83-96 | plain values of a manifest pass iff the config allowlists each of them for that very path |
| Hooks.PreCommittedVerifies | internal/cli/verify.go:36-99 | after pre-commit succeeds, no staged path is flagged if the envelopes staged as such authenticate |
| Hooks.RewrittenOpensToStaged | internal/cli/hooks.go:39-72 | each rewritten entry opens to what had been staged; every other entry is unchanged |
| History.RevList | internal/gitutil/gitutil.go:116-128 | the commits reachable from the local end and not from the remote one |
| History.ChangedPathsMean | internal/gitutil/gitutil.go:79-90 | a path counts as unchanged iff there is a parent and every parent has it just so; in a root commit everything is changed |
| History.VerifyCommitStructurally | internal/cli/hooks.go:223-282 | accepts iff every changed path passes under the config of that very commit; a config that does not load is refused, none is not |
| History.CheckRange | internal/cli/hooks.go:162-176 | the shared seen set skips a commit only if it was already judged |
| History.HookPrePush | internal/cli/hooks.go:147-183 | accepts iff the tree at HEAD authenticates and every commit the remotes lack passes, over several refs |
| History.AcceptedHeadAuthenticates | internal/cli/hooks.go:147-151 | if a push is accepted over a governed HEAD, the key is there, every selected file of HEAD opens for its path, every manifest passes the authenticated lint, and the raw key is not in it |
| History.AcceptedCommitsPass | internal/cli/hooks.go:223-282 | a pushed commit that changes anything has no config or one that loads, and every path it changes is sealed as that config says and not the raw key |
| History.CleanTreeMeans | internal/cli/hooks.go:248-280 | what a clean tree is: selected files parse as envelopes, manifests pass the lint without a key, no raw key |
| History.VerifyHead | internal/cli/verify.go:22-99 | accepts HEAD iff there is nothing to enforce, or the key is there and no path of its tree is flagged; a config that does not load, or no key, is refused |
| History.VerifiedTreeIsClean | internal/cli/verify.go:26-99 | a tree verify finds nothing wrong with is clean in the structural sense |
| History.CommitIsClean | internal/cli/hooks.go:223-282 | with clean parents, a passing commit's whole tree is clean iff what it newly protects is sealed |
| History.AcceptedPushIsClean | internal/cli/hooks.go:132-183 | by induction over the graph, every tree reachable from an accepted push is clean; HEAD itself needs no further hypothesis |
| History.AcceptedPushIsCleanIff | internal/cli/hooks.go:132-183 | and that holds iff no commit in the range, HEAD excepted, widens protection over plaintext |
| History.WideningOverPlaintextIsAccepted | internal/cli/hooks.go:223-282 | a concrete accepted push, HEAD verified elsewhere, with plaintext at a path it now protects |
| History.WideningAtHeadIsRefused | internal/cli/hooks.go:147-151 | the same push is refused when HEAD is its tip, whatever the key |
| Sealer.SealContext | internal/sealer/sealer.go:55-98 | fails exactly without recipients, for a bad fingerprint or when gpg does; else seals every entry under a fresh key wrapped to all recipients, listed sorted |
| Sealer.Rewrap | internal/sealer/sealer.go:122-148 | succeeds iff a local key unwraps the content key and the new list can be wrapped to; changes the wrapping and the list only; the key is the same, wrapped to exactly the new list |
| Sorting.SameUpToCase | cmd/keyfold/recipients.go:241-246 | two fingerprints count as the same iff they differ in the case of letters only |
| Sealer.Unseal | internal/sealer/sealer.go:183-215 | succeeds iff a local key unwraps, the limits hold and every entry opens for this object; returns all plaintexts |
| Sealer.SealStarts | internal/sealer/sealer.go:55-98 | a sealed object satisfies the run invariant |
| Sealer.RunKeepsWellSealed | internal/sealer/sealer.go:55-148 | every run of rewrap, rekey and set keeps key, list and entries consistent |
| Sealer.UnsealsIffRecipient | internal/sealer/sealer.go:183-215 | after any run, an identity unseals iff it is a listed recipient, within the limits |
| Sealer.StepEffect | cmd/keyfold/rekey.go:63-106 | rewrap leaves the ciphertexts, rekey the data, set changes exactly one key |
| Sealer.ResealLocksOutOthers | cmd/keyfold/rekey.go:14-28 | after rekey or set no content key obtained earlier opens any current value |
| Sealer.RewrapAloneIsInsufficient | cmd/keyfold/rekey.go:24-28 | after a mere rewrap a removed recipient cannot unseal, and still reads with the key they kept iff there is any value |
| Sealer.ReadersAreWrappedSince | cmd/keyfold/rekey.go:14-28 | after any run, exactly the identities the key was wrapped to since the last rekey or set can still read |
| Sealer.UnsealOfSeal | internal/sealer/sealer.go:31-34 | unsealing gives back what was sealed iff there are at most 1024 entries of at most 786369 bytes |
| Sealer.DriftIsNoticedIff | internal/sealer/sealer.go:150-177 | an edit of the recipient list is noticed iff it leaves another number of entries or one that is not a full fingerprint |
| Sealer.MovedObjectOpensForNobody | internal/sealer/sealer.go:36-41 | an object copied to another namespace or name opens for nobody |
| Sealer.CopiedValueOpensForNobody | internal/sealer/sealer.go:36-41 | an object one of whose values was copied to another key opens for nobody |
| RecipientRoles.ParseRecipientRoles | api/v1alpha1/recipientroles.go:84-107 | the parsed roles, with the legacy key as fallback; every key is upper-case, trimmed and free of separators |
| RecipientRoles.LegacyIsFallback | api/v1alpha1/recipientroles.go:37-53 | roles are read under the key from before the rename only where the current key is missing |
| RecipientRoles.SpellingDoesNotMatter | api/v1alpha1/recipientroles.go:93-105 | spaces around an entry and its parts and the case of the fingerprint do not matter; an unknown role drops the entry |
| RecipientRoles.LastEntryCounts | api/v1alpha1/recipientroles.go:93-105 | of several entries for one fingerprint the last counts |
| RecipientRoles.ParsedIsListed | api/v1alpha1/recipientroles.go:93-105 | every parsed role stems from an entry that says so |
| RecipientRoles.OnlyRoleNames | api/v1alpha1/recipientroles.go:75-82 | exactly the four names are roles, each its own |
| RecipientRoles.FormatRecipientRoles | api/v1alpha1/recipientroles.go:109-123 | visiting the map in whatever order, the text is the sorted one of the non-human roles |
| RecipientRoles.FormatIsUnique | api/v1alpha1/recipientroles.go:109-123 | the text is the same sorted one whatever the order of iteration |
| RecipientRoles.ParseOfFormat | api/v1alpha1/recipientroles.go:84-123 | parsing what was formatted gives back exactly the non-human roles |
| RecipientRoles.ParsedKeysAreClean | api/v1alpha1/recipientroles.go:93-105 | whatever the text, no parsed fingerprint can upset the format |
| Recipients.GitSecret.ApplyRecipientChange | cmd/keyfold/recipients.go:239-299 | refused, failed or applied exactly as guards, keyring and gpg dictate; applied changes list, wrapping and roles only; otherwise nothing changes; past the guards it takes a key of somebody it is wrapped to, full fingerprints and gpg; no other annotation changes |
| Recipients.VerdictMeans | cmd/keyfold/recipients.go:241-267 | no change iff the recipient is listed on add, or not on remove; without --force never the last recipient, nor the last listed one with role recovery; exactly then |
| Recipients.GitSecret.Decide | cmd/keyfold/recipients.go:241-269 | the guards and the next recipients and roles |
| Recipients.GitSecret.WriteRoles | cmd/keyfold/recipients.go:282-297 | the roles end under the current key or nowhere, never under the old one |
| Recipients.GitSecret.OpenForReseal | cmd/keyfold/rekey.go:115-135 | the plaintexts, exactly when the object is named, lists recipients and unseals |
| Recipients.GitSecret.Reseal | cmd/keyfold/rekey.go:139-179 | sealed anew to the current recipients, provenance kept or replaced; or nothing changes; no provenance of before, under either name, survives a replacement |
| Recipients.GitSecret.RunRekey | cmd/keyfold/rekey.go:42-61 | is the rekey step of the object protocol, and succeeds exactly when it does |
| Recipients.GitSecret.RunSet | cmd/keyfold/rekey.go:63-106 | is the set step of the object protocol, and succeeds exactly when it does |
| Recipients.RolesAfter | cmd/keyfold/recipients.go:282-297 | the roles read back through the annotation text are the ones the change computed |
| Recipients.RoleGiven | cmd/keyfold/recipients.go:247-268 | a role given is the one read back, a removed recipient has none, nobody else changes |
| Recipients.ChangeKeepsOrder | cmd/keyfold/recipients.go:239-299 | a change adds or removes one fingerprint and keeps the list distinct, sorted, non-empty and consistent with the wrapping; the content key and every value stay, wrapped to exactly the new list |
| Recipients.ChangeKeepsRecovery | cmd/keyfold/recipients.go:262-267 | an unforced change never takes the last recovery recipient |
| Recipients.RecipientsStayOrderly | cmd/keyfold/recipients.go:239-299 | over every sequence, forced or not, an object keeps a recipient and a distinct sorted list |
| Recipients.RecoveryIsKept | cmd/keyfold/recipients.go:262-267 | over every unforced sequence an object keeps a recovery recipient |
| Recipients.RepeatIsNoChange | cmd/keyfold/recipients.go:234-256 | repeating an applied change is reported as no change |
| Recipients.ComputeOne | cmd/keyfold/recipients.go:404-433 | what one target comes to: skipped, done, failed or rewritten, each under its exact condition |
| Recipients.RecipientsMutate | cmd/keyfold/recipients.go:394-461 | one failing target and nothing is written; else exactly the targets to rewrite, in order, up to the first write that fails |
| Recipients.WriteAll | cmd/keyfold/recipients.go:441-450 | each file holds the last result written for it, or what it held |
| Reconciler.SetStatusCondition | internal/controller/gitsecret_controller.go:280-298 | replaces the first condition of the type in place or appends |
| Reconciler.SetConditionKeeps | internal/controller/gitsecret_controller.go:275-298 | types stay unique, other conditions are untouched, the transition time moves only with the status |
| Reconciler.ComputedSettles | internal/controller/gitsecret_controller.go:227-262 | computing a recorded status again finds nothing worth writing |
| Reconciler.FailureSettles | internal/controller/gitsecret_controller.go:76-92 | with object, Secret and error text unchanged, a recorded failure is not written again |
| Reconciler.SyncSettlesIff | internal/controller/gitsecret_controller.go:190-203 | after a sync the next reconcile writes nothing iff the store gives back what was written |
| Reconciler.StoredIsOwned | internal/controller/gitsecret_controller.go:141-170 | what a sync stores is owned by the object, shows exactly the data, and is wanted unchanged next time |
| Reconciler.PredecessorIsTakenOver | internal/controller/gitsecret_controller.go:108-124 | a released Secret of a predecessor accepts the controller reference, whatever adopt says |
| Reconciler.SyncMirrorsData | internal/controller/gitsecret_controller.go:141-170 | after a sync the Secret's data is exactly the unsealed map, and no other Secret changed; it has the name and type asked for, and keeps its references to other objects |
| Reconciler.OneControllerIff | internal/controller/gitsecret_controller.go:163-169 | setting the controller reference leaves one controller, with the exact exception |
| Reconciler.OthersReferencesStay | internal/controller/gitsecret_controller.go:163-169 | setting the controller reference leaves every reference to another object as often as it was |
| Reconciler.TwoControllersExample | internal/controller/gitsecret_controller.go:163-169 | a non-controlling reference to the object before its controlling one ends as two controllers |
| Reconciler.SyncLeavesOneController | internal/controller/gitsecret_controller.go:163-169 | so does a sync |
| Reconciler.LateSecretIsTakenIff | internal/controller/gitsecret_controller.go:94-101 | a Secret the ownership check would have refused, found only by CreateOrUpdate, is overwritten iff it is uncontrolled or controlled by a same-named current-group object with another uid; else the apply fails |
| Reconciler.LateSecretExample | internal/controller/gitsecret_controller.go:94-141 | another's ownerless Secret created after the check loses its data without adopt |
| Reconciler.ReleaseAloneStrands | internal/controller/gitsecret_controller.go:108-119 | released but not synced, a predecessor's Secret is a conflict unless adopt is set, its data intact |
| Reconciler.WithoutOwnerControllers | internal/controller/gitsecret_controller.go:217-225 | dropping the controlling owner leaves no controller |
| Reconciler.WithoutOwner | internal/controller/gitsecret_controller.go:217-225 | exactly the references with another uid remain |
| Reconciler.DropOwner | internal/controller/gitsecret_controller.go:217-225 | the new list is that list, in order |
| Reconciler.WithoutOwnerCounts | internal/controller/gitsecret_controller.go:217-225 | every other reference stays as often as it was there |
| Reconciler.Controller.ReleaseTarget | internal/controller/gitsecret_controller.go:108-119 | drops the predecessor's reference from the target and nothing else, or changes nothing |
| Reconciler.Controller.PersistStatus | internal/controller/gitsecret_controller.go:232-237 | writes only a meaningfully changed status, and nothing else |
| Reconciler.Controller.PersistFailure | internal/controller/gitsecret_controller.go:77-91 | records Ready false with the reason, touching only the status |
| Reconciler.Controller.Apply | internal/controller/gitsecret_controller.go:141-203 | writes the wanted Secret iff it differs, then the status iff something happened |
| Reconciler.Controller.Reconcile | internal/controller/gitsecret_controller.go:43-206 | a failed unseal leaves every Secret alone; a conflict and a failed call do too; undisturbed, nothing but the target changes, and only if absent, owned, a predecessor's or adopt; disturbed, nothing else but in the one racing case; of the object only the status changes, condition types stay unique, and without a failed call Ready says whether this was a sync; a settled state is left without a write, and a reconcile without failures settles; a conflict is answered exactly for a Secret not to be touched; the Secret of a namesake from before the rename is taken over whatever adopt says; the status reports the mirrored fields, counters and sync time that only a sync moves, and the reason |
| Reconciler.Controller.ReconcileOpened | internal/controller/gitsecret_controller.go:102-206 | the same from the ownership check on |
| Reconciler.Controller.PassGuard | internal/controller/gitsecret_controller.go:102-124 | past the check a predecessor's Secret is released and nothing else changed |
| Reconciler.LeftIsReady | internal/controller/gitsecret_controller.go:227-262 | written or not worth writing, the computed status is what the store then says of Ready |
| Reconciler.FailureReports | internal/controller/gitsecret_controller.go:64-92 | a failure mirrors name, recipients and revision, states its reason and generation, and moves no counter and no sync time |
| Reconciler.SyncReports | internal/controller/gitsecret_controller.go:187-203 | a sync does the same with the new generation and key count, and its own time iff something was written |
| Operator.ReconcileSealed | internal/controller/gitsecret_controller.go:43-206 | unsealing with the keyring and reconciling: a sync needs an object the keyring unseals and leaves the target showing exactly its values |
| Operator.Operate | internal/controller/gitsecret_controller.go:43-206 | every sequence of reconciles, new object versions and meddling with Secrets is a run of allowed steps |
| Operator.ConditionsStayUnique | internal/controller/gitsecret_controller.go:275-298 | condition types stay unique over every run |
| Operator.UntouchableStays | internal/controller/gitsecret_controller.go:94-124 | over every run without other writers a Secret no version of the object may touch stays as it was |
| Operator.ReadyMeansShown | internal/controller/gitsecret_controller.go:72-92 | after a reconcile without a failed call Ready=True means the Secret shows the values the keyring unseals, and what does not unseal is reported and left alone |
| Glob.MatchesExactlyTheLanguage | internal/config/pattern.go:59-89 | the matcher is sound and complete for the language of a pattern: some run of segments for each `**` |
| Glob.WellFormedNeverErrs | internal/config/pattern.go:59-89 | no error when every segment is well formed |
| Glob.ErrsOnSomePathIff | internal/config/pattern.go:59-89 | a pattern errs on some real path iff a segment breaks on some segment text and every segment before it can be passed |
| Glob.DoubleStarCollapses | internal/config/pattern.go:63-77 | consecutive `**` mean one, wherever in the pattern they stand |
| Glob.LeadingSlashIsIgnored | internal/config/pattern.go:47-57 | a leading slash changes nothing |
| Glob.MatchByTable | internal/config/pattern.go:59-89 | a table filled row by row, without backtracking, decides the language, and so gives the matcher's answer wherever it has one |
| Config.Matches | internal/config/pattern.go:12-40 | the loop with its early exits computes the selection |
| Config.FirstMatchMeans | internal/config/pattern.go:15-28 | with well-formed patterns the loop answers whether some pattern takes the path |
| Config.SelectsMeans | internal/config/pattern.go:9-40 | selected iff some pattern takes the path and no exclude does |
| Config.UnionDedup | internal/config/config.go:307-318 | the order-preserving duplicate-free union without empty strings |
| Config.Assembly.Overlay | internal/config/config.go:288-305 | the in-place overlay is the merge of two configs |
| Config.MergeGlobalFor | internal/config/config.go:257-275 | the layered config if it validates, else none; another version, and an id that could be mistaken for an id and a path, are refused |
| Config.LoadsIff | internal/config/config.go:257-351 | told of the two files: when they load, over versions, lists, backend, fingerprints, repository id and last pattern segments of either |
| Fingerprints.FullFingerprint | internal/gpgutil/gpgutil.go:44-54 | a full fingerprint has 40 or 64 hexadecimal digits of either case |
| Config.LayeredLists | internal/config/config.go:231-275 | the three lists are exactly the unions; excludes and plaintext allowlists are the repository's own |
| Config.GlobalOnlyWidens | internal/config/config.go:231-248 | a path selected alone is still selected after the merge iff the global patterns, tried in order, answer on it; recipients and manifests only grow |
| Config.WellFormedGlobalWidens | internal/config/config.go:231-248 | with well-formed global patterns every path selected alone is selected after the merge |
| Config.MalformedGlobalCanNarrow | internal/config/config.go:231-248 | two configs that validate, and a path the repository selects alone that is an error after the merge |
| Config.LastSegmentCheckIsNotEnough | internal/config/config.go:321-351 | a config that validates and errs on a path |
| Config.SavedMergeReloads | internal/cli/init.go:98-111 | saving a merged config and loading it again gives the same effective config, with or without the global file |
| Config.ScalarPrecedence | internal/config/config.go:231-297 | backend, key source and version are the repository's if set, else the global file's, else the default |
| Config.GlobalSuppliesRepoId | internal/config/config.go:298-301 | the global repo_id is taken when the repository has none |
| Policies.MergedIsLayered | internal/config/config.go:257-275 | the recipients commands run with are those of the merged config |
| Policies.ValidatedCanRun | internal/config/config.go:321-351 | a config that validates has recipients the commands accept, and the backend is the one it names |
| Policies.RawKeyIsFlagged | internal/cli/verify.go:70-80 | a tree with nothing to protect but a file at key_source verifies iff the backend is not the file one |
| Policies.PolicySelects | internal/config/pattern.go:9-40 | the selection the hooks enforce is that of the pattern language |
| Policies.GlobalCannotHide | internal/config/config.go:231-248 | a path verify flags for the repository config alone it flags with a well-formed global file merged in, the place of the raw key apart |
| MetricsAuth.CacheKeyIsInjective | internal/metricsauth/metricsauth.go:85-85 | distinct requests have distinct cache keys, for tokens without spaces (section 2.1 of RFC 6750) |
| MetricsAuth.Reviewer.Cached | internal/metricsauth/metricsauth.go:126-135 | a hit is exactly a live entry; anything else at the key is dropped |
| MetricsAuth.Reviewer.Remember | internal/metricsauth/metricsauth.go:137-152 | the cache becomes exactly what is kept to make room, plus the entry for one TTL; at most 256 remain, each backed by an allow for its own request |
| MetricsAuth.Reviewer.MakeRoom | internal/metricsauth/metricsauth.go:141-150 | a full cache loses exactly its expired entries or, if that does not help, all |
| MetricsAuth.RoomForMeans | internal/metricsauth/metricsauth.go:137-152 | nothing goes while there is room, expired entries go first, and a live entry goes only if 256 are live |
| MetricsAuth.Reviewer.Purge | internal/metricsauth/metricsauth.go:141-146 | exactly the expired entries go |
| MetricsAuth.Reviewer.Authorize | internal/metricsauth/metricsauth.go:84-124 | a live entry answers and was allowed lately, else the review does; an allow is stored and a denial is not, with the exact new cache; where the review has been steady for a TTL and a timeout the answer is the review's |
| MetricsAuth.Reviewer.HitAgreesWithReview | internal/metricsauth/metricsauth.go:28-37 | a live entry means the review allowed this request less than a TTL and a timeout ago, and allows it now if it has been steady since |
| MetricsAuth.StaleHit | internal/metricsauth/metricsauth.go:84-152 | for every allow less than a TTL and a timeout ago there is a run that answers from it, whatever the review says now |
| MetricsAuth.HitsAgreeIff | internal/metricsauth/metricsauth.go:84-152 | whatever entry is live for a request, it agrees with the review now iff an allow given less than a TTL and a timeout ago still stands |
| MetricsAuth.TtlAloneIsNotEnough | internal/metricsauth/metricsauth.go:28-37 | at the TTL of a minute and the timeout of ten seconds, a request refused throughout the last minute that a live entry can still allow |
| MetricsAuth.StaleHitAfterAMinute | internal/metricsauth/metricsauth.go:28-38 | a run at those constants that answers such a refused request with an allow |
| MetricsAuth.Serve | internal/metricsauth/metricsauth.go:126-152 | any interleaving of the critical sections of concurrent requests keeps the cache bounded and backed, and every hit one the review allowed lately |

## Left out

- Running git, gpg, kubectl and HTTP servers, flag parsing, help text, exit codes and messages: only their effects on the modelled state appear. Real cryptography, randomness and OpenPGP packets are ideal here.
- YAML and JSON syntax: a manifest is an identity, an ordered list of entries and everything else. Anchors appear only as the refusal they cause; aliases do not.
- `filepath.Match` on one segment is an arbitrary function answering match, no match or malformed. `filepath.Clean`, symlink checks and file modes are not modelled.
- Files managed as a whole and files managed by value are taken to be disjoint. In the run theorems the selected paths do not change and are the same on every machine; what a rotation that selects fewer does is NarrowRotationStrandsIff; plaintext that begins with the envelope magic counts as already encrypted, so a managed file may not start out with such a payload.
- An edit of a managed file is plaintext, or ciphertext for its path under a known key; restoring a version sealed before the last rotation, and deleting a managed file, are not modelled.
- There is one worktree, which everybody's commands act on in turn. Several clones, what merging them does, and copies of an uncommitted file-backend key on other machines are not modelled.
- config.Save is one atomic write here, though the code writes the file directly; a torn config is not covered.
- For the env backend the new key exists only in the returned result, and the model counts it as handed out once it is generated: a process killed in the middle of the write loop takes it with it, which is not covered; a failing write is.
- A key init replaced may survive in the git history of a committed key.gpg; the model counts it as gone.
- A crash between staging and promoting a rewrapped key may leave its temp file; the model keeps such files in `temps` but nothing reads or removes them.
- After adduser the backend object still wraps to the old list until the context is loaded again. A rotation through that same context keeps everything RotateKeys promises, but RotateCommand, which persists the list, is stated for a freshly loaded context, as every command line invocation has one.
- `encrypt PATH` and `decrypt PATH` on paths no pattern matches, `status`, `migrate`, the keyring, the recipient picker, the web page and manual installation of hooks.
- The post-checkout and post-merge hooks, which are DecryptPaths; .gitignore edits; parsing the lines git writes to the pre-push hook.
- The real apiserver refuses an object with two controller references; the modelled store takes it, so the odd case of OneControllerIff would there end as a failed apply.
- A GitSecret that has been deleted when its reconcile starts, watches, leader election and client caches. The count in the Synced message is represented by the synced-keys field alone.
- The order in which Seal writes its entries, which does not matter for a map, and clearing the status in a re-sealed object.
- Upper-casing and trimming are those of ASCII, with the two Latin-1 spaces; a fingerprint consists of hexadecimal digits anyway.
- Reconciler.Controller.Reconcile: quiescence is stated for an unseal outcome with the same error text, because Unseal visits a map in no fixed order and may report another entry.
- MetricsAuth.Reviewer.Authorize: takes the token review and the access review as one answer at one time; requests interleave in Serve.
- Reconciler.FailureSettles: does not cover a reconcile that has just released a predecessor's Secret and then failed to apply, because the released Secret is judged anew.
- Recipients.WriteAll: writes each file whole, because the source replaces it through a temporary file.
