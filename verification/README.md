# Governance platform: verified models

This project models the parts of the platform where two pieces of code have to agree exactly, or where a
protocol has to survive retries, and proves what they are relied on for. `dafny verify dfyconfig.toml` checks it
with Dafny 4.11.

- **Plan identity.** `Text`, `Decimal`, `JsonString`, `Json` give Python's canonical JSON printer a parser and
  prove that each undoes the other. `Plan` is the platform's projection of a Terraform plan, its bytes, its
  destructive verdict and touched ids, and the re-hash of a recovered document; `PlanVerdicts` says what the order,
  the kept fields and the two verdicts mean for the `show -json` document itself. `Canonicalizers` is the
  customer-side copy of the rule and the exact condition under which the two agree.
- **Remediation pull requests.** `GitHub` is the repository as a state machine, `PullRequest` runs any number of
  deliveries of one patch against it in any interleaving, with crashes, lost answers and other people at work.
  `LiveWriteTool` is the worker's own code against a mutable remote, and when a delivery left alone completes.
  `HeadBranch` is the branch name a patch derives, by which many patches keep apart. `CommitResolver` finds the merged commit
  again over every commit graph (`CommitGraph`).
- **Keys and signatures.** `Der`, `Octets`, `Modular`, `Signing`, `AppToken`: from the DER octets of a private
  key to a signature that verifies, including the arithmetic (binomial theorem, Fermat, RSA); `EncodedMessage` is
  what is signed, octet by octet. `CredentialCache` is the cache in front of it.
- **The unified diff applier.** `Lines`, `UnifiedDiff`, and `HunkHeader` for every spelling of a hunk header.
- **Complete-or-fail reads.** `Pagination`, `RdsGroups`, `CandidatePages`.
- **State and indexes that must agree with a simple definition.** `Users` and `ProfileLists` (the shared user
  pool), `ControlRows`, `Baseline`, `PolicyProfiles` (the ISMS-P baseline), `ExecutionPlan` (planner and
  coverage), `AuthoringDigest`, `Consistency`.
- `Sorting`, `Sequences`, `Strings`, `Wrappers` are shared.

Hashes, the pattern for part headings, remote answers and clocks are parameters; results about hashes say which
two texts must not collide. A remote that answers differently from call to call is a function of the request number.

## What the code does differently from what it says

Each of these properties is false as promised. The first lemma named gives the exact condition under which it holds;
further ones give inputs on which it fails.

- Two Python strings with different surrogates can print alike; text decoded from JSON cannot
  (`EscapeEqualIffCombinedEqual`, `LoneSurrogatesCollide`).
- The two canonicalizers disagree on empty addresses and on repeated ones; the script then falls back to its own
  rule and prints a projection the platform would refuse (`AgreeExactly`, `EmptyAddressDisagrees`,
  `RepeatedAddressDisagrees`, `ScriptAgainstPlatform`).
- The platform's projection depends on the order of changes that share an address (`OrderIrrelevantExactly`,
  `OrderShows`).
- `_summary` raises when a change has no type, after its hash check passed (`SummaryOfRecovered`,
  `UntypedChangeRaises`).
- A patch whose files are all in place already, and whose branch adds nothing to the default branch, never gets a
  pull request it does not have already (`DeliveryReturnsExactly`, `InPlaceDeliveryFails`).
- Applying a diff and its reverse is the identity on lines, not on strings (`TextRoundTripExactly`,
  `DeletedLineStaysDeleted`).
- A cursor walk does not end, ends in an error, or repeats items, when a page ends in an empty sort key or in a key
  that some earlier item has (`WalkExactly`, `RepeatedKeyLoops`, `RepeatedKeyRepeats`).
- A create whose first answer is lost leaves an account nobody discards (`AllOrNothingExactly`).
- `delete_user` does not normalise the address as create and assign do (`DeleteNeedsTheNormalSpelling`,
  `UnnormalisedDeleteMisses`).
- Control numbers increase strictly only if no two ids differ in leading zeros alone (`StrictlyIncreasingExactly`,
  `LeadingZeroTwin`).
- Coverage compares counts, so results off the plan can hide missing ones (`CoverageExactly`, `OffPlanCounts`).
- Requirements whose source locators contain the unit separator can share an identity (`CollisionExactly`,
  `SeparatorMerges`).

## Model

| member | source | states |
|---|---|---|
| Sorting.SortIsStable | packages/contracts/terraform_plan.py:83-85 | `list.sort` as a sorted permutation that keeps the order of equal keys |
| Sorting.StableSortUnique | packages/contracts/terraform_plan.py:83-85 | those promises determine the result, so any stable sort gives the same list |
| Text.BelowExactly | packages/contracts/terraform_plan.py:83-98 | Python orders strings by the first differing code point, a proper prefix first |
| JsonString.QuoteParses | packages/contracts/terraform_plan.py:88-105 | a printed string literal, followed by anything, is read back as the string |
| JsonString.EscapeEqualIffCombinedEqual | packages/contracts/terraform_plan.py:88-105 | two Python strings print alike exactly when the decoder cannot tell them apart |
| JsonString.LoneSurrogatesCollide | packages/contracts/terraform_plan.py:88-105 | a surrogate pair and the character it encodes are different strings with one spelling |
| JsonString.HexValueExactly | packages/contracts/terraform_plan.py:88-105 | the hexadecimal digits a reader takes, of either case, and their values |
| Json.PrintParses | packages/contracts/terraform_plan.py:88-105 | parsing canonical text, whatever follows it, gives the value and leaves the rest |
| Json.PrintInjective | packages/contracts/terraform_plan.py:88-105 | equal canonical text means equal values |
| Json.PrintAscii | packages/contracts/terraform_plan.py:88-105 | canonical text is printable ASCII, so its UTF-8 bytes are its characters |
| Json.IntTextExactly | packages/contracts/terraform_plan.py:88-105 | an integer is printed with a sign only below zero, without leading zeros, and as itself |
| Plan.ProjectPlanChanges | packages/contracts/terraform_plan.py:45-85 | the loop over the changes, its early errors and the sort compute the projection |
| Plan.ProjectAccepts | packages/contracts/terraform_plan.py:45-85 | accepted exactly when every entry is well shaped, has a list of actions and a non-empty address |
| Plan.ProjectIdempotent | packages/contracts/terraform_plan.py:45-85 | projecting a projected document again changes nothing |
| PlanVerdicts.ElevenFields | packages/contracts/terraform_plan.py:24-38 | a projected change holds the eleven named fields, null for a missing one, and no others |
| PlanVerdicts.RefusedForAddress | packages/contracts/terraform_plan.py:45-85 | over the raw document: when it projects, and when it is refused for a missing address alone |
| PlanVerdicts.ProjectionAscends | packages/contracts/terraform_plan.py:83-85 | the projection lists changes by ascending address |
| PlanVerdicts.ByAscendingAddress | packages/contracts/terraform_plan.py:83-85 | changes at b and a, in this order, are projected a first |
| Plan.CanonicalBytesParse | packages/contracts/terraform_plan.py:88-105 | the canonical bytes parse to exactly the projected list |
| Plan.CanonicalBytesInjective | packages/contracts/terraform_plan.py:88-234 | equal bytes if and only if equal projections, and then the same verdict and the same ids, for any table of identity attributes |
| PlanVerdicts.BytesRefused | packages/contracts/terraform_plan.py:88-105 | bytes are refused for what the projection is, or for a number that is not finite |
| PlanVerdicts.DestructiveExactly | packages/contracts/terraform_plan.py:113-131 | over the raw document: destructive if and only if some change has the action delete or a non-empty list of replaced paths |
| PlanVerdicts.OneChangeDestroys | packages/contracts/terraform_plan.py:113-131 | the verdict on any document of one change |
| PlanVerdicts.DestructiveActions | packages/contracts/terraform_plan.py:113-131 | delete, delete with create, and replaced paths are destructive; create, update and no-op are not |
| Plan.MappedResourceIds | packages/contracts/terraform_plan.py:202-234 | the sorted, repeat-free ids of all changes, or the error of the first change without a type |
| Plan.CollectIdentities | packages/contracts/terraform_plan.py:202-234 | the set the loop collects, for any table of identity attributes |
| PlanVerdicts.MappedAccepts | packages/contracts/terraform_plan.py:202-241 | ids come out if and only if the document projects and every change has a type |
| PlanVerdicts.MappedExactly | packages/contracts/terraform_plan.py:179-234 | over the raw document: an id is listed, in ascending order and once, if and only if some change of a mapped type holds it after the change, or before it when nothing is held after |
| PlanVerdicts.RenamedBucket | packages/contracts/terraform_plan.py:160-234 | a bucket with a new name names the new one |
| PlanVerdicts.DeletedBucket | packages/contracts/terraform_plan.py:160-234 | a deleted bucket names its old name |
| PlanVerdicts.CreatedDatabase | packages/contracts/terraform_plan.py:160-234 | a database names its identifier |
| PlanVerdicts.BalancersCarryArns | packages/contracts/terraform_plan.py:160-176 | a load balancer and its listeners name one ARN, under either name of the type |
| PlanVerdicts.BucketPartsCarryNames | packages/contracts/terraform_plan.py:160-176 | the parts of a bucket's configuration name the bucket, an instance its id |
| Plan.SummaryOfRecovered | agent/runtime/live_deployment_ports.py:218-241 | the recovered canonical document of every valid plan passes the hash check and gives the plan's own verdict and ids, unless a change has no type |
| Plan.SummaryFaithful | agent/runtime/live_deployment_ports.py:218-241 | whatever passes the check has the plan's projection, verdict and ids |
| PlanVerdicts.SummaryRefused | agent/runtime/live_deployment_ports.py:218-241 | why a recovered change list has no summary, and that it otherwise has one |
| Canonicalizers.RunInlineProject | ci/terraform/canonical_plan_hash.py:40-67 | the script's loop, address check and sort compute its projection |
| Canonicalizers.PlatformAccepts | packages/contracts/terraform_plan.py:45-105 | the documents the platform's function accepts, entry by entry |
| Canonicalizers.InlineAccepts | ci/terraform/canonical_plan_hash.py:27-84 | the documents the script's own rule accepts, entry by entry |
| Canonicalizers.SameBytes | ci/terraform/canonical_plan_hash.py:40-84 | where both accept, the bytes are equal |
| Canonicalizers.AgreeExactly | ci/terraform/canonical_plan_hash.py:27-84 | the two agree if and only if strictness and distinct addresses coincide on the common ground |
| Canonicalizers.AgreeOnPlans | ci/terraform/canonical_plan_hash.py:27-84 | they agree on documents with distinct non-empty addresses and list-valued actions |
| Canonicalizers.EmptyAddressDisagrees | ci/terraform/canonical_plan_hash.py:27-84 | an empty address is accepted by the script alone |
| Canonicalizers.RepeatedAddressDisagrees | ci/terraform/canonical_plan_hash.py:27-84 | a repeated address is accepted by the platform alone |
| Canonicalizers.ScriptAgainstPlatform | ci/terraform/canonical_plan_hash.py:70-84 | what the script prints for every document: the platform's bytes if it accepts; else those of its own projection, exactly for lax documents with distinct addresses, and that projection the platform refuses |
| Canonicalizers.FallbackRefused | ci/terraform/canonical_plan_hash.py:40-84 | the projection of every document that is not strict is refused by the platform again |
| Canonicalizers.OffListIgnored | ci/terraform/canonical_plan_hash.py:40-67 | fields off the allow-list reach neither canonicalizer |
| Canonicalizers.AcceptanceIgnoresOrder | packages/contracts/terraform_plan.py:45-85 | permuting the changes does not change acceptance |
| Canonicalizers.OrderIrrelevantExactly | packages/contracts/terraform_plan.py:83-85 | permuting never changes the projection if and only if entries with one address project alike |
| Canonicalizers.OrderShows | packages/contracts/terraform_plan.py:83-85 | an accepted plan with two changes under one address, whose projection changes when they are swapped |
| Canonicalizers.UntypedChangeRaises | agent/runtime/live_deployment_ports.py:218-241 | a plan both canonicalizers accept, whose recovered document passes the hash check and then raises |
| CommitGraph.ReachesTransitive | agent/runtime/live_deployment_commit_resolver.py:117-131 | ancestry is transitive over every well-founded commit graph |
| CommitGraph.ReachesStable | agent/runtime/live_deployment_commit_resolver.py:117-131 | new commits never change the ancestry of old ones |
| PullRequest.InputOkMeans | agent/runtime/live_github_write_tool.py:92-97 | comparing sorted keys with sorted paths accepts exactly the patches that name every changed file once |
| PullRequest.StepKept | agent/runtime/live_github_write_tool.py:103-212 | one answered request keeps branch, log and pull requests in order and moves its delivery to a phase it has earned |
| PullRequest.OthersKeep | agent/runtime/live_github_write_tool.py:79-126 | so does anything other people do outside the patch's branch |
| PullRequest.RunKeeps | agent/runtime/live_github_write_tool.py:79-126 | the invariant holds in every state of every run |
| PullRequest.RunsExtend | agent/runtime/live_github_write_tool.py:79-126 | no enabled action is blocked: every run goes on |
| PullRequest.Convergence | agent/runtime/live_github_write_tool.py:79-126 | once any delivery has returned, the branch is the base tree with exactly the changes in place, and one open pull request has it |
| PullRequest.ConvergenceExact | agent/runtime/live_github_write_tool.py:79-126 | with blob shas that tell old from new, the branch's tree equals base overlaid with the changes |
| PullRequest.SameRecord | agent/runtime/live_github_write_tool.py:115-126 | all deliveries that return, return one record |
| PullRequest.WritesAreBounded | agent/runtime/live_github_write_tool.py:130-208 | over all deliveries the branch is made once, each path committed at most once, one pull request |
| PullRequest.QuietAfterReturn | agent/runtime/live_github_write_tool.py:130-208 | after one delivery has returned nothing is made or committed again |
| PullRequest.LateDeliveriesOnlyRead | agent/runtime/live_github_write_tool.py:130-208 | a delivery that starts later sends neither POST nor PUT |
| PullRequest.OtherPatchesAreOthers | agent/runtime/live_github_write_tool.py:79-212 | every request of a delivery for another branch is something others may do, so convergence covers many patches delivered at once |
| HeadBranch.SameNameExactly | agent/runtime/github_write_tool.py:174-182 | two patches get one branch name if and only if they name one finding and share the sixteen hash digits |
| HeadBranch.NamesDifferExactly | agent/runtime/github_write_tool.py:174-182 | without a hash collision the names differ if and only if the findings or the pieces of the seed between separators do |
| HeadBranch.PatchesDoNotMeet | agent/runtime/github_write_tool.py:174-182 | so every request for one such patch leaves branch and pull requests of the other alone |
| HeadBranch.NameText | agent/runtime/github_write_tool.py:174-182 | the text that is hashed and the name made of it |
| LiveWriteTool.EnsureBranch | agent/runtime/live_github_write_tool.py:130-148 | look up, then create; a taken name is not an error |
| LiveWriteTool.CommitFile | agent/runtime/live_github_write_tool.py:150-173 | skip a file in place, otherwise commit under the blob sha just read |
| LiveWriteTool.CommitFiles | agent/runtime/live_github_write_tool.py:107-114 | the loop over the changed paths and its stop at a refusal |
| LiveWriteTool.OpenOrReusePull | agent/runtime/live_github_write_tool.py:175-208 | reuse the open pull request or create one |
| LiveWriteTool.OpenPullRequest | agent/runtime/live_github_write_tool.py:79-126 | the method leaves the remote and the answer that its phases, taken one by one, lead to |
| LiveWriteTool.DeliveryReturnsExactly | agent/runtime/live_github_write_tool.py:79-212 | a delivery that is alone returns if and only if the branch is available and a pull request is or can be opened |
| LiveWriteTool.InPlaceDeliveryFails | agent/runtime/live_github_write_tool.py:79-212 | a repository of one commit and a patch in place already, whose delivery does not return |
| LiveWriteTool.RefusedExactly | agent/runtime/live_github_write_tool.py:190-208 | after the files are committed a pull request is refused exactly when base is missing, is the head, or holds nothing to merge |
| LiveWriteTool.RedeliveryReturnsSameRecord | agent/runtime/live_github_write_tool.py:115-126 | delivering again after a return changes nothing and gives the same record |
| LiveWriteTool.SoloRuns | agent/runtime/live_github_write_tool.py:79-126 | every run goes on to one in which a given delivery is answered to its end, and ends as it does alone |
| LiveWriteTool.DeliveryCompletes | agent/runtime/live_github_write_tool.py:79-126 | from every state of every run one more delivery that is left alone ends, and returns if and only if branch and pull request are available in that state |
| CommitResolver.MergedCommit | agent/runtime/live_deployment_commit_resolver.py:96-115 | the first merged pull request of the page decides |
| CommitResolver.PageExactly | agent/runtime/live_deployment_commit_resolver.py:96-115 | at most the ten newest pull requests are looked at |
| CommitResolver.CompareExactly | agent/runtime/live_deployment_commit_resolver.py:117-131 | the four answers of a comparison, by ancestry |
| CommitResolver.ResolvesExactly | agent/runtime/live_deployment_commit_resolver.py:67-131 | a commit is returned if and only if it is the newest merged pull request's on the page and is reachable from the default head |
| CommitResolver.ResolvesToNothing | agent/runtime/live_deployment_commit_resolver.py:67-131 | None exactly when nothing on the page is merged, or the newest merged commit is not reachable from the default head |
| CommitResolver.OutOfScopeRefused | agent/runtime/live_deployment_commit_resolver.py:67-94 | a request or patch of another scope is refused, and only such |
| CommitResolver.ResolutionStable | agent/runtime/live_deployment_commit_resolver.py:117-131 | the answer stays while the default branch only advances |
| CommitResolver.NewestMergedDecides | agent/runtime/live_deployment_commit_resolver.py:96-115 | the page's first merged entry is the newest merged pull request of the branch |
| CommitResolver.MergedPullIsResolved | agent/runtime/live_deployment_commit_resolver.py:67-131 | after any run that delivered, merging its pull request makes the resolver answer that merge commit |
| Modular.BinomialTheorem | agent/runtime/github_app_token.py:206-216 | the expansion behind Fermat's theorem |
| Modular.Fermat | agent/runtime/github_app_token.py:206-216 | a to the p is a modulo a prime p |
| Modular.PrimesTogether | agent/runtime/github_app_token.py:206-216 | divisible by two different primes means divisible by their product |
| Octets.ToFromBytes | agent/runtime/github_app_token.py:206-216 | a number that fits comes back from its octets |
| Octets.KeyBytesBounds | agent/runtime/github_app_token.py:206-216 | the key length in octets bounds the modulus from both sides |
| EncodedMessage.PrefixIsDer | agent/runtime/github_app_token.py:41-42 | the nineteen octets before the digest are the DER of the SHA-256 DigestInfo, from its object identifier |
| EncodedMessage.EncodedOctets | agent/runtime/github_app_token.py:219-225 | what is signed, octet by octet, down to the digest of the message; refused exactly below 62 octets |
| Signing.EncodeFits | agent/runtime/github_app_token.py:219-225 | the encoded message has the key's length and lies below the modulus |
| Signing.RsaCorrect | agent/runtime/github_app_token.py:206-216 | the private and the public exponent undo each other on every message representative |
| Signing.SignatureVerifies | agent/runtime/github_app_token.py:206-225 | every signature made with a matching key pair verifies, and making it never overflows |
| EncodedMessage.SignatureTellsDigest | agent/runtime/github_app_token.py:206-225 | a signature that verifies for two messages means that they have one digest |
| EncodedMessage.OnlySignatureVerifies | agent/runtime/github_app_token.py:206-225 | what verifies is the signature of the private half, and nothing else |
| Der.ReadSequence | agent/runtime/github_app_token.py:261-270 | the loop ends and computes the list of fields or the first error |
| Der.ReadEncoded | agent/runtime/github_app_token.py:273-289 | reading an encoded field followed by anything gives tag, content and what follows |
| Der.SequenceEncoded | agent/runtime/github_app_token.py:261-270 | an encoded sequence of fields is read as those fields |
| Der.ReadSplits | agent/runtime/github_app_token.py:273-289 | what was read and the rest make up the input, which shrank |
| Der.ReadExactly | agent/runtime/github_app_token.py:273-289 | a field is read if and only if the input is its header, its content and the rest |
| Der.RefusedExactly | agent/runtime/github_app_token.py:273-289 | which lengths are invalid |
| Der.ReadIgnoresRest | agent/runtime/github_app_token.py:273-289 | appending to the input only appends to the rest |
| Der.Pkcs1Numbers | agent/runtime/github_app_token.py:228-258 | a PKCS#1 key gives its modulus and private exponent |
| Der.Pkcs8Numbers | agent/runtime/github_app_token.py:228-258 | every PKCS#8 wrapping of the key gives the same numbers |
| Der.NumbersExactly | agent/runtime/github_app_token.py:228-244 | nine integers, or four inside a third field: when a key is read and which numbers |
| Der.NotRsaExactly | agent/runtime/github_app_token.py:228-244 | anything else is refused, as not an RSA key or for the first field that cannot be read |
| AppToken.StoredKeySigns | agent/runtime/github_app_token.py:206-244 | from the stored key in either wrapping to one signature that verifies |
| CredentialCache.Cache.Get | agent/runtime/github_app_token.py:126-137 | the cache after a call and the answer, for a usable, an expired and a failed fetch |
| CredentialCache.ReusedExactly | agent/runtime/github_app_token.py:126-137 | a value is reused strictly before its expiry less the margin |
| CredentialCache.AnswersAreFresh | agent/runtime/assume_role_session.py:56-82 | over any sequence of calls an answer is the value just fetched or one that outlives the margin |
| CredentialCache.OneFetchPerWindow | agent/runtime/assume_role_session.py:56-82 | no call fetches while the last fetched value is usable |
| Lines.SplitJoin | bench/runner.py:429-475 | joined lines split back, save an empty last one |
| Lines.JoinSplit | bench/runner.py:429-475 | a text with line feeds only is its lines joined, with its final newline |
| Lines.SplitMixed | bench/runner.py:429-475 | lines with any ends, carriage returns with line feeds among them, are split into those lines |
| UnifiedDiff.HeaderParses | bench/runner.py:429-475 | a printed hunk header is read as its four numbers |
| HunkHeader.HeaderExactly | bench/runner.py:434-447 | a line is read as a header if and only if it spells one: counts printed, or left out where they are one, and an empty tail or one after a space |
| UnifiedDiff.WalkBody | bench/runner.py:429-475 | the cursor loop succeeds exactly when the body is well formed and its old side is the base slice |
| UnifiedDiff.ApplyLines | bench/runner.py:429-475 | the applier's result on lines is what its only hunk means |
| UnifiedDiff.ApplyUnifiedDiff | bench/runner.py:429-475 | on strings it succeeds if and only if the hunk applies, with the joined result |
| HunkHeader.NoteIsPassedOver | bench/runner.py:457-459 | the note on a missing final newline changes nothing |
| HunkHeader.ReplacedText | bench/runner.py:429-475 | a hunk with its counts left out replaces the line it names |
| HunkHeader.ReplacePatchApplies | bench/runner.py:429-475 | the patch `@@ -1 +1 @@`, `-a`, `+b` on the line with a line feed, with both line ends, and with none |
| UnifiedDiff.AppliesUnique | bench/runner.py:429-475 | what a patch does to a base is determined: one hunk, one result |
| UnifiedDiff.ResultShape | bench/runner.py:429-475 | prefix, new side, suffix, and the length of the result |
| UnifiedDiff.ReverseUndoes | bench/runner.py:429-475 | the sign-swapped hunk applied to the result gives back the base |
| UnifiedDiff.ResplitsExactly | bench/runner.py:429-475 | when the joined result splits into the result lines |
| UnifiedDiff.TextRoundTripExactly | bench/runner.py:429-475 | on strings the reverse patch restores the base if and only if the base breaks lines with line feeds and the hunk keeps its end: some line, or a non-empty last line where the base has no final newline |
| UnifiedDiff.EmptiedTextIsLost | bench/runner.py:429-475 | every hunk that removes all lines of a text with a final newline leaves a lone newline, which the reverse does not undo |
| UnifiedDiff.DeletedLineStaysDeleted | bench/runner.py:429-475 | the patch that deletes the one line of a text, and its reverse, which does not bring it back |
| Pagination.Paginate | agent/runtime/assume_role_session.py:113-151 | returns the items of all pages if and only if the token chain ends within the cap; otherwise an error, never a prefix |
| Pagination.ContinuationExactly | agent/runtime/assume_role_session.py:146-151 | which of the four names gives the token |
| Pagination.CapExactly | agent/runtime/assume_role_session.py:107-143 | a chain is listed if and only if it ends within two hundred pages |
| Pagination.EndUnique | agent/runtime/assume_role_session.py:113-151 | a chain of pages ends once, so the complete list is determined |
| RdsGroups.CollectIds | agent/runtime/assume_role_rds_resource_tool.py:153-158 | the group ids in use, each once, in the order first met |
| RdsGroups.BatchesCover | agent/runtime/assume_role_rds_resource_tool.py:164-167 | the requests ask for every id exactly once, in order, at most a batch at a time |
| RdsGroups.RequestsExactly | agent/runtime/assume_role_rds_resource_tool.py:52-178 | a hundred ids to a request, the rest to the last |
| RdsGroups.ByIdExactly | agent/runtime/assume_role_rds_resource_tool.py:168-171 | the index holds exactly the described ids, each with a description of that id |
| RdsGroups.Describe | agent/runtime/assume_role_rds_resource_tool.py:159-178 | all batches answered and every id described, or the error that applies |
| RdsGroups.SecurityGroupsFor | agent/runtime/assume_role_rds_resource_tool.py:149-178 | the nested and batched loops together |
| RdsGroups.AttachedSecurityGroups | agent/runtime/assume_role_rds_resource_tool.py:191-205 | the entries of an instance, in the order of its memberships |
| RdsGroups.AttachedComplete | agent/runtime/assume_role_rds_resource_tool.py:191-205 | with all groups described there is one entry for each membership that names a group, describing that group |
| RdsGroups.ListResources | agent/runtime/assume_role_rds_resource_tool.py:113-141 | every listed instance with one entry per attached group, if and only if listing and reading were complete; otherwise the reason that applies |
| RdsGroups.KeptFields | agent/runtime/assume_role_rds_resource_tool.py:39-51 | the fields kept as evidence, and no others |
| CandidatePages.NextStart | apps/backend/api/policy_candidates.py:219-252 | a cursor leads directly behind its item exactly when no earlier item has its key |
| CandidatePages.StartExactly | apps/backend/api/policy_candidates.py:219-252 | where a cursor leads, and which cursors are refused for what |
| CandidatePages.WalkMeasure | apps/backend/api/policy_candidates.py:219-252 | a finished walk is the rest of the items exactly when the pages line up, and too long otherwise |
| CandidatePages.WalkExactly | apps/backend/api/policy_candidates.py:219-252 | the walk from no cursor ends with exactly the items, in order, if and only if every boundary key is non-empty and new |
| CandidatePages.DistinctKeysWalk | apps/backend/api/policy_candidates.py:219-252 | so it does for distinct non-empty keys and any page size |
| CandidatePages.RepeatedKeyLoops | apps/backend/api/policy_candidates.py:219-252 | three items with one key, page by page: no number of pages ends the walk |
| CandidatePages.RepeatedKeyRepeats | apps/backend/api/policy_candidates.py:219-252 | keys a, b, a, c in pages of three: the walk ends and yields two items twice |
| Strings.Strip | apps/backend/api/users.py:60-69 | `str.strip()`: trimmed, and unchanged exactly when it was trimmed |
| Strings.StripIsMiddle | apps/backend/api/users.py:60-69 | `str.strip()` is the contiguous middle of the text that is trimmed and has only white space around it |
| Strings.SplitJoin | apps/backend/api/users.py:288-301 | joined items without the separator are split apart as they were |
| Strings.JoinExactly | apps/backend/api/users.py:288-301 | two lists join to one text if and only if their items, cut at the separator, are the same in order |
| Strings.JoinSplit | apps/backend/api/users.py:288-301 | split and joined again, a text is unchanged |
| ProfileLists.SplitProfiles | apps/backend/api/users.py:288-297 | the loop computes the trimmed, non-empty, repeat-free parts in order |
| ProfileLists.ProfilesClean | apps/backend/api/users.py:288-297 | whatever is stored, the list read from it is clean |
| ProfileLists.ReadsBackExactly | apps/backend/api/users.py:288-301 | split(join(l)) = l if and only if l is clean |
| ProfileLists.AssignmentReadsBack | apps/backend/api/users.py:224-237 | the stored value reads back as the list that was meant, from any stored text |
| ProfileLists.AssignmentIsExact | apps/backend/api/users.py:224-237 | only the wanted profile is added or removed; all others stay in place |
| ProfileLists.AssignmentRepeats | apps/backend/api/users.py:224-237 | add, remove and set are idempotent on the stored text |
| ProfileLists.RemovalUndoesAddition | apps/backend/api/users.py:224-237 | removing a profile just added restores the list |
| Users.NormalizeOnce | apps/backend/api/users.py:60-69 | a normalised address stays as it is, so every call agrees on it |
| Users.NormalizeExactly | apps/backend/api/users.py:60-69 | an address becomes its middle with capitals made small, and nothing else changes |
| Users.MakeRequest | apps/backend/api/users.py:45-95 | when a request is accepted, and that it carries the normalised address, the role named and the password given |
| Users.RolesExactly | apps/backend/api/users.py:27-92 | the two roles and nothing else |
| Users.PasswordExactly | apps/backend/api/users.py:33-57 | accepted if and only if long enough and of all four classes, the symbols being the punctuation of ASCII |
| Users.ActionsExactly | apps/backend/api/users.py:221-235 | the three words of an assignment and nothing else |
| Users.UserManagementService.CreateUser | apps/backend/api/users.py:117-160 | three writes and the compensation leave the pool of the closed form; success exactly when all three were done, and which error otherwise |
| Users.UserManagementService.DiscardHalfCreated | apps/backend/api/users.py:162-169 | removes the account unless the delete is refused, and raises nothing |
| Users.UserManagementService.RequireSameCustomer | apps/backend/api/users.py:261-285 | a missing user and a foreign one are denied alike; only a failed read is a fault |
| Users.UserManagementService.AssignProfile | apps/backend/api/users.py:199-242 | when it succeeds or which error it gives, what it writes, and that the answer is what a reader will see |
| Users.UserManagementService.DeleteUser | apps/backend/api/users.py:244-259 | removes exactly an owned account; which error is given when |
| Users.AllOrNothingExactly | apps/backend/api/users.py:117-169 | a create leaves the pool unchanged or with the complete account, except in exactly two failure patterns |
| Users.ForeignAccountsStay | apps/backend/api/users.py:117-285 | over any sequence of calls and failures, a customer's accounts change only by that customer's calls |
| Users.PoolStaysTidy | apps/backend/api/users.py:117-301 | names stay normalised and stored lists clean over any sequence of calls |
| Users.DeleteNeedsTheNormalSpelling | apps/backend/api/users.py:244-259 | a delete has an effect if and only if the address is spelled normalised and owned |
| Users.UnnormalisedDeleteMisses | apps/backend/api/users.py:244-259 | a spelling that assigns to an account does not delete it |
| ControlRows.ReadRow | scripts/build_isms_p_baseline.py:178-195 | one row: the headings from here on and the row's control or error |
| ControlRows.ControlIdExactly | scripts/build_isms_p_baseline.py:104-105 | three numerals with dots between, and nothing else |
| ControlRows.SectionIdExactly | scripts/build_isms_p_baseline.py:104-105 | two numerals, each with a dot behind it |
| ControlRows.Collect | scripts/build_isms_p_baseline.py:175-195 | the row loop collects the controls in document order, or fails with the reason of the first row that fails |
| ControlRows.ReadControls | scripts/build_isms_p_baseline.py:166-202 | accepted exactly when all rows read and no id repeats, then sorted by number; the error otherwise |
| ControlRows.ByNumbersExactly | scripts/build_isms_p_baseline.py:161-163 | controls are ordered by chapter, then section, then item, as numbers |
| ControlRows.NumbersWritten | scripts/build_isms_p_baseline.py:161-163 | the numbers of an id are those written between its dots |
| ControlRows.ControlsInOrder | scripts/build_isms_p_baseline.py:161-202 | 1.1.1 before 1.1.2 and 1.1.2 before 1.1.10 |
| ControlRows.CollectedExactly | scripts/build_isms_p_baseline.py:178-195 | the controls are those of the rows, no others, each under the headings in force |
| ControlRows.NearestHeading | scripts/build_isms_p_baseline.py:181-184 | the part of a row is the nearest heading before it |
| ControlRows.NearestSection | scripts/build_isms_p_baseline.py:185-188 | the section of a row is the nearest one opened |
| ControlRows.StrictlyIncreasingExactly | scripts/build_isms_p_baseline.py:161-202 | numbers increase strictly if and only if no two ids differ in leading zeros only |
| ControlRows.LeadingZeroTwin | scripts/build_isms_p_baseline.py:166-202 | three worksheet rows that are accepted and whose controls do not increase strictly |
| ControlRows.TwinsAccepted | scripts/build_isms_p_baseline.py:166-202 | so are all rows of this shape whose two ids differ in leading zeros only |
| Decimal.SameNumber | scripts/build_isms_p_baseline.py:161-163 | two numerals mean one number exactly when they differ in leading zeros only |
| Baseline.CheckTables | scripts/build_isms_p_baseline.py:234-262 | the tables are accepted exactly when every cited and pending item exists and no item is both |
| Baseline.IndexRule | scripts/build_isms_p_baseline.py:324-325 | filing one rule under its items adds it once to each and changes no other entry |
| Baseline.Build | scripts/build_isms_p_baseline.py:265-406 | when a registry is built and why not otherwise, and that the loops build these documents |
| Baseline.IndexAgrees | scripts/build_isms_p_baseline.py:352-369 | a control lists a rule if and only if that rule cites the control |
| Baseline.EntriesAreThere | scripts/build_isms_p_baseline.py:352-369 | the entries are those of the controls, and no others |
| Baseline.ManualRulesExactly | scripts/build_isms_p_baseline.py:284-316 | the manual rule and the entry of every control: ids, citation, and the control key by which it is judged by people for good or for now |
| Baseline.AutomaticRulesExactly | scripts/build_isms_p_baseline.py:318-350 | the automatic rules follow in ascending order of their keys |
| Baseline.AutomaticRuleIs | scripts/build_isms_p_baseline.py:318-350 | an automatic rule cites its items, each as often, in the order of the standard |
| Baseline.BuiltProfileExactly | scripts/build_isms_p_baseline.py:371-384 | the profile meets its invariant, and its segment lists every rule once if and only if no catalog control is named like an item |
| Baseline.ProfileExactly | scripts/build_isms_p_baseline.py:371-384 | the profile refers to every rule, in one version and one segment of the standard |
| Baseline.RemediationExactly | scripts/build_isms_p_baseline.py:385-400 | every mapped control, and no other, inherits its eligibility |
| PolicyProfiles.CheckSegment | packages/contracts/policy.py:324-338 | accepted exactly when named, non-empty and without repeats |
| PolicyProfiles.BlankExactly | packages/contracts/policy.py:324-392 | a name is blank if and only if it holds white space only |
| PolicyProfiles.CheckProfile | packages/contracts/policy.py:364-392 | accepted exactly when no origin repeats and the segments cover exactly the rules |
| PolicyProfiles.RuleKinds | packages/contracts/policy.py:403-415 | every listed rule with the kinds of its segments, each once, in segment order |
| PolicyProfiles.SourceKinds | packages/contracts/policy.py:395-401 | the kinds of the segments, each once, in order |
| PolicyProfiles.RuleKindsCover | packages/contracts/policy.py:364-415 | in a valid profile with segments exactly the profile's rules have origins |
| ExecutionPlan.MakePlanner | apps/backend/assessment/execution_plan.py:70-89 | the planners that are accepted, and what they may evaluate |
| ExecutionPlan.PlansExactly | apps/backend/assessment/execution_plan.py:41-115 | which perspectives a worker plans for a rule of each execution type |
| ExecutionPlan.PlansOf | apps/backend/assessment/execution_plan.py:41-115 | on a worker with all runners: legacy and hybrid rules plan plan, account and drift, the others one perspective each |
| ExecutionPlan.PlannedIsRun | apps/backend/assessment/execution_plan.py:95-131 | the pairs asked by rule and the pairs asked by planned perspective are the same, each as often |
| ExecutionPlan.DriftExactly | apps/backend/assessment/execution_plan.py:57-124 | drift is planned exactly when derived for a dual-perspective rule, and those are the drift rules |
| ExecutionPlan.CalculateCoverage | apps/backend/assessment/coverage.py:6-27 | counts distinct coordinates; an empty plan and an overfull count are refused |
| ExecutionPlan.ReportExactly | apps/backend/assessment/coverage.py:6-27 | for all results and plans: refused if and only if more coordinates are stray than missing, reported complete if and only if as many are stray as missing |
| ExecutionPlan.CoverageExactly | apps/backend/assessment/coverage.py:6-27 | for all results and plans: the report tells whether every planned coordinate was seen if and only if none is stray, or some are missing and their number differs from the stray ones |
| ExecutionPlan.CoverageIgnoresRedelivery | apps/backend/assessment/coverage.py:6-27 | results that name the same coordinates, in any order and as often as they like, give one coverage |
| ExecutionPlan.OffPlanCounts | apps/backend/assessment/coverage.py:6-27 | two results, one of them off the plan: complete by count, with a planned coordinate missing |
| Strings.WordsExactly | packages/contracts/policy_authoring.py:694-709 | the words of a text are what stands between its white space: this list and no other, whatever the gaps |
| AuthoringDigest.NormalizedExactly | packages/contracts/policy_authoring.py:694-709 | a statement counts as its words with one space between them, however it was spaced |
| AuthoringDigest.IdentityExactly | packages/contracts/policy_authoring.py:694-709 | for all requirements: one identity if and only if class and words agree and the key and sorted locators, cut at the separator, are the same pieces |
| AuthoringDigest.CollisionExactly | packages/contracts/policy_authoring.py:694-709 | when two different requirements share an identity; one of them then contains the separator |
| AuthoringDigest.SeparableIdentity | packages/contracts/policy_authoring.py:694-709 | without separators: one identity if and only if class, key, locator multiset and words agree |
| AuthoringDigest.IdentityOfOne | packages/contracts/policy_authoring.py:694-709 | the text that is hashed for a requirement with one locator |
| AuthoringDigest.LocatorOrderIrrelevant | packages/contracts/policy_authoring.py:694-709 | the order of the locators never matters |
| AuthoringDigest.SeparatorMerges | packages/contracts/policy_authoring.py:694-709 | a locator containing the separator has the identity of two |
| AuthoringDigest.PreImageExactly | packages/contracts/policy_authoring.py:921-945 | equal pre-images if and only if the four groups carry the same multisets of digests |
| AuthoringDigest.EmptyPreImage | packages/contracts/policy_authoring.py:921-945 | the text that is hashed for a run that produced nothing |
| AuthoringDigest.ResultDigestExactly | packages/contracts/policy_authoring.py:921-945 | the same for the result digests of two runs whose pre-images do not collide |
| AuthoringDigest.ResultDigestOfRequirements | packages/contracts/policy_authoring.py:921-945 | down to the requirements: equal result digests if and only if each group holds the same multiset of requirements, each taken as class, pieces between separators and words |
| Consistency.Mode | scripts/measure_score_consistency.py:188-194 | the most frequent value; of several the one that came first |
| Consistency.ModeUnique | scripts/measure_score_consistency.py:188-194 | that determines it |
| Consistency.ShareOfMode | scripts/measure_score_consistency.py:197-200 | its share is the largest of any value, and one exactly when all values are equal |
| Consistency.MaxPairwiseIsRange | scripts/measure_score_consistency.py:131-170 | the largest pairwise difference is the range |
| Consistency.MeanBelowMax | scripts/measure_score_consistency.py:131-170 | and bounds the mean pairwise difference |
| Consistency.MeanExactly | scripts/measure_score_consistency.py:131-170 | the mean difference is the sum of all differences, added up in another order, over the number of pairs |
| Consistency.MeanOfThree | scripts/measure_score_consistency.py:131-170 | scores 1, 4, 2: mean difference 2, largest 3 |
| Consistency.PairwiseSize | scripts/measure_score_consistency.py:137 | n runs are compared in n(n-1)/2 pairs |

## Left out

- HTTP, AWS clients, Secrets Manager, zip and XML reading, command lines and Markdown: only the answers the code branches on are kept.
- JSON input with white space or repeated keys: the parser reads canonical text, which has neither. Numbers other than integers are the texts `repr` gives them.
- SHA-256 and SHA-1 are parameters; base64, PEM armour and the JWT around a signature are not part of this model.
- Regular expressions over non-ASCII digits, and the pattern for part headings, which is a parameter.
- `str.lower()` outside ASCII letters.
- What GitHub is assumed to do: others never touch the patch's branch, rename the default branch or delete commits, but may close and merge pull requests and push elsewhere; listings come newest first; a second open pull request of one head and base, and one without new commits, are refused.
- Pull request titles and bodies, the plain-token bypass of the token provider, and the binding checks of `dispatch_apply`: field comparisons.
- Users.ForeignAccountsStay: the calls run one after another, because the service holds no lock and a model of interleaved calls would need the pool's own transactions.
- `list_users`, which filters pages.
- The evidence projector and other consumers of a plan's projection.
- Titles, severities, phases and source digests of baseline rules, and writing the files.
- Ranking and gates in `summarize`, and rounding of statistics.
- Derived enum tables and field-by-field constructor checks: finite or immediate.
