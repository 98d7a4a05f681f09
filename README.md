# ODD pipeline core in Dafny

ODD ("Output-Driven Development") turns a one-line requirement into verified, sealed code in
four steps:

1. The requirement is matched against a catalogue of artifact types by keyword scoring, and a
   contract is built from the winning catalogue entry.
2. A language model is asked for code. Its reply is cleaned of a surrounding code fence.
3. The code is checked against the contract's verification hints. These are substring rules in
   three families: `must_contain_any`, `must_not_contain` and `should_contain`.
4. Requirement, contract, code and report are sealed under SHA-256 digests and an integrity
   digest.

The repository also ships one generated deliverable, a Flask login service. This project models
its input validator and its table of failed login attempts.

Modules, one per source file, plus two shared ones:

- `Wrappers`: the `Option` type, with `GetOr` for Python's `dict.get(key, default)`.
- `TextOps`: the string operations the source relies on. These are substring containment (`p in s`),
  ASCII `lower()`, `"\n".join` and its inverse, `split("\n", 1)[1]` and `rsplit(p, 1)[0]`.
- `Standards`: the catalogue as a value. Every optional field of the YAML catalogue is an
  `Option`, and artifact ids are unique keys kept in declaration order.
- `ContractGenerator`: keyword scoring, the imperative matching loop and contract construction.
- `ContractVerifier`: the rule engine. Its three imperative loops are proved equal to a
  specification function, and the gating lemmas are proved about that function.
- `SealManager`: digest composition and the seal record. The integrity is filled in after the
  record is built, as in the source.
- `CodeGenerator`: the early error return, fence stripping and the bullet lines of the prompt.
- `AuthLogin`: `validate_input` under Python regular-expression semantics, and the `users` table
  as a class whose methods update it in place.

Matching, contract construction and verification are functions of values. They take the
requirement and the catalogue as inputs and cannot change them.

Three behaviours of the code are easy to get wrong:

- A score counts keyword list entries, not distinct keywords, so a keyword listed twice counts
  twice.
- A requirement that matches nothing gives an error record, not an exception, and the model
  returns that record.
- The seal record is written with a plain file write, not an atomic one; the write is not modelled.

## Model

| member | source | states |
|---|---|---|
| TextOps.ContainsIffOccurs | odd/contract_generator.py:39 | Python's `p in s` holds exactly when `p` occurs in `s` at some position; the empty pattern is in every string |
| TextOps.Lower | odd/contract_generator.py:31 | `lower()` keeps the length and maps each character on its own: ASCII capitals to small letters, everything else unchanged |
| TextOps.AfterFirst | odd/code_generator.py:100 | `split("\n", 1)[1]` is the text after the first newline; it is missing exactly when there is no newline |
| TextOps.BeforeLast | odd/code_generator.py:100 | `rsplit(p, 1)[0]` is a prefix of the text that ends where the right-most `p` starts, with no occurrence of `p` after it; without `p` it is the whole text |
| TextOps.SplitJoinLines | odd/code_generator.py:45 | joining newline-free lines with `"\n"` and splitting on newlines gives back the same lines |
| Standards.Lookup | odd/contract_generator.py:57 | `standards['artifacts'][id]` is the configuration stored under that unique id |
| ContractGenerator.Score | odd/contract_generator.py:38-39 | a keyword score is at most the number of entries, and it is 0 exactly when no lower-cased entry occurs in the lower-cased requirement |
| ContractGenerator.ScoreCountsEntries | odd/contract_generator.py:39 | the score is the number of list positions whose entry occurs, so duplicate entries count separately |
| ContractGenerator.MatchArtifactType | odd/contract_generator.py:29-44 | the `for` loop with its strict `>` update returns the specified match |
| ContractGenerator.MatchIsFirstMaximum | odd/contract_generator.py:32-44 | no match exactly when every artifact scores 0, an empty or missing catalogue included; otherwise the result is a catalogue id whose score is positive and maximal, and no earlier artifact reaches that score |
| ContractGenerator.FirstMaximumIsMatched | odd/contract_generator.py:37-44 | conversely, the first artifact with the highest positive score is the one returned |
| ContractGenerator.Embed | odd/contract_generator.py:65-72 | each section present in the configuration is copied into the contract, and each missing one (a template's `inputs` or `outputs` included) becomes an empty list or mapping |
| ContractGenerator.GenerateContract | odd/contract_generator.py:46-73 | the error record comes back exactly when every artifact scores 0, with the message prefix followed by the requirement; otherwise the contract carries the given id, time and requirement, names the first highest-scoring artifact, falls back to the id for a missing name, and embeds that artifact's sections |
| ContractGenerator.LoginScenario | odd/contract_generator.py:31-44 | with keywords `login` and `登录`, the requirement `创建用户登录API` scores 1 and matches `login`; `生成报表` matches nothing |
| ContractVerifier.FirstFound | odd/contract_verifier.py:24-29 | the pattern reported is the first one in list order that is found; nothing is reported exactly when no pattern is found |
| ContractVerifier.FindFirst | odd/contract_verifier.py:25-28 | the inner loop with `break` reports the first pattern found |
| ContractVerifier.CheckRule | odd/contract_verifier.py:20-62 | a `must_contain_any` check passes iff some pattern occurs ignoring case; a `must_not_contain` check passes iff no pattern occurs; a `should_contain` check passes iff some pattern occurs. The last two are case-sensitive. `found` is the first pattern found, missing fields get their defaults, and `should_contain` checks always carry `low` |
| ContractVerifier.Verify | odd/contract_verifier.py:13-64 | the three loops and two flags compute the specified report |
| ContractVerifier.ReportLayout | odd/contract_verifier.py:15-62 | one check per rule: all `must_contain_any` checks first, then `must_not_contain`, then `should_contain`, each family in rule order |
| ContractVerifier.VerdictGating | odd/contract_verifier.py:30-64 | `critical_failed` holds iff a gating check failed with severity `critical`; `passed` holds iff every gating check passed; a critical failure implies the verdict fails |
| ContractVerifier.AdvisoryNeverGates | odd/contract_verifier.py:53-64 | replacing the `should_contain` rules changes neither `passed` nor `critical_failed` |
| ContractVerifier.EmptyPatternRules | odd/contract_verifier.py:21-46 | a rule with no or empty patterns gives a `must_contain_any` check that fails and a `must_not_contain` check that passes with nothing found |
| ContractVerifier.SampleVerdict | odd/contract_verifier.py:67-80 | the sample code passes the critical hashing rule with `bcrypt` found and the critical plaintext-password rule with nothing found, so the verdict passes |
| ContractVerifier.PlaintextPasswordFails | odd/contract_verifier.py:37-51 | code containing `password =` fails the critical rule with that pattern found, and the verdict is failed and critical |
| SealManager.SealFileName | odd/seal_manager.py:58 | the file name is `seal_`, then the first 8 characters of the id (all of a shorter id), then `.json` |
| SealManager.Seal | odd/seal_manager.py:26-62 | the record keeps the id, time, version `0.1.0` and the four artifacts verbatim; it is intact, meaning its digests and integrity are recomputable from its artifacts; the result repeats the record's id and integrity and names the record file |
| SealManager.Reseal | odd/seal_manager.py:28-55 | sealing the same inputs under two ids and times gives identical digests and integrity |
| SealManager.IntegrityContentInjective | odd/seal_manager.py:54 | with 64-character digests, the colon-joined integrity text determines all four digests |
| SealManager.CodeChangeMovesCodeDigestOnly | odd/seal_manager.py:38-55 | changing only the code leaves the other three digests unchanged and changes the integrity text; under the stated no-collision assumptions it changes the code digest and the integrity |
| SealManager.TamperedCodeIsDetected | odd/seal_manager.py:38-55 | an intact record whose stored code is replaced by code with a different digest is no longer intact |
| CodeGenerator.StripFences | odd/code_generator.py:98-100 | a reply without a leading fence is kept unchanged; one with a leading fence fails exactly when it has no newline; otherwise the result is what follows the first newline, cut before the last fence, or all of it when no fence remains |
| CodeGenerator.CutBeforeClosingFence | odd/code_generator.py:100 | text followed by one fence is cut back to exactly that text |
| CodeGenerator.FencedBlockRoundTrip | odd/code_generator.py:98-100 | a fenced block with a newline-free language tag comes back as its body, whatever the body holds |
| CodeGenerator.GenerateCode | odd/code_generator.py:83-103 | an error contract gives an error with its message; a client failure gives `API 调用失败: ` followed by the failure text; otherwise code is produced exactly when fence stripping succeeds, with the model name and the reply's token count |
| CodeGenerator.FenceWithoutNewlineFails | odd/code_generator.py:98-103 | a stripped reply that opens a fence with no newline becomes an API failure with the `IndexError` text |
| CodeGenerator.ErrorContractSkipsClient | odd/code_generator.py:85-86 | for an error contract the result does not depend on the client's reply |
| CodeGenerator.ImplicitTextLines | odd/code_generator.py:44-45 | the rendered implicit requirements split back into one `  - [id] name: description` line per requirement, in order; none render as the empty text |
| CodeGenerator.ImplicitText | odd/code_generator.py:45 | `implicit_text` is empty exactly when there are no implicit requirements, and otherwise starts with the first requirement's line |
| CodeGenerator.HintsText | odd/code_generator.py:73 | the hints text is empty exactly when there are no hints, and otherwise starts with `- ` and the first hint |
| CodeGenerator.HintsTextLines | odd/code_generator.py:73 | the rendered hints split back into one `- hint` line per hint, in order; none render as the empty text |
| AuthLogin.UsernameFormatIsPattern | output/generated_auth_login.py:64 | `^[a-zA-Z0-9_]+$` matches exactly a non-empty run of those characters, optionally followed by one final newline |
| AuthLogin.PasswordFormatIsPattern | output/generated_auth_login.py:70 | the lookahead pattern matches exactly a text with no newline except possibly a final one, holding a small letter, a capital and a digit |
| AuthLogin.ValidateInput | output/generated_auth_login.py:54-72 | checks run in order and the first failure's message is returned: missing key, username format, username length in [3, 50], password length in [8, 128], password format; `(True, '')` exactly when all pass |
| AuthLogin.UsernameMayEndInNewline | output/generated_auth_login.py:64 | a valid username followed by a newline still matches the pattern |
| AuthLogin.PasswordInnerNewlineRejected | output/generated_auth_login.py:70 | a newline anywhere but at the end makes the password pattern fail |
| AuthLogin.AfterFailure | output/generated_auth_login.py:82-87 | an existing key's count goes up by one with its lockout time kept; an absent key is added with count 1; other keys are unchanged |
| AuthLogin.Exceeded | output/generated_auth_login.py:75-79 | a key is over the limit only if it has an entry, and then exactly when its failure count is at least 5 |
| AuthLogin.LoginTracker.RateLimitExceeded | output/generated_auth_login.py:75-79 | `rate_limit_exceeded(key)` holds exactly when the table has the key with a failure count of at least 5 |
| AuthLogin.AfterSuccess | output/generated_auth_login.py:90-93 | the key is removed if present and every other entry is unchanged |
| AuthLogin.LoginTracker.HandleLoginFailure | output/generated_auth_login.py:82-87 | the in-place update leaves the table as the failure function describes |
| AuthLogin.LoginTracker.HandleLoginSuccess | output/generated_auth_login.py:90-93 | the in-place deletion leaves the table as the success function describes |
| AuthLogin.FailuresCount | output/generated_auth_login.py:84-87 | from an absent key, n failures leave the count at n with the first failure's lockout time |
| AuthLogin.LockedAfterFiveFailures | output/generated_auth_login.py:48-51 | from an absent key, `rate_limit_exceeded` holds after n failures iff n >= 5, so five failures lock the key and four do not |
| AuthLogin.SuccessResetsCount | output/generated_auth_login.py:77 | after a success the key is not over the limit, and the next failure counts from 1 |
| AuthLogin.OtherKeysUnaffected | output/generated_auth_login.py:75-93 | a failure or success for one key never changes whether another key is over the limit |

## Left out

- `main.py`: command-line parsing, console output, environment loading, orchestration and writing the code file.
- `_load_standards`: YAML parsing and file-existence checks. The catalogue is an input value, and its ids are assumed unique, as keys of a YAML mapping are.
- `uuid.uuid4()` and `datetime.now()`: the contract id, the seal id and the timestamps are parameters.
- `SealManager.Seal`: SHA-256 and the sorted-key JSON serialisation are function parameters. No property of their internals is assumed, except in lemmas that state a 64-character digest width or a no-collision assumption for the particular inputs they compare.
- `SealManager.Seal`: the output directory creation and the `json.dump` file write are I/O and are not modelled. The code does no atomic write.
- `CodeGenerator.GenerateCode`: the OpenAI client, its construction from environment variables and the chat-completion call are abstracted as a reply or a failure text. `strip()` is an abstract function parameter.
- The system prompt, and the prompt template text around the bullet lists, including the JSON dumps of knowledge, inputs and outputs.
- `TextOps.Lower`: models `lower()` on ASCII only; full Unicode case mapping is not modelled.
- `AuthLogin.PasswordFormatIsPattern`: `\d` is taken as ASCII digits; Python's `\d` also accepts other Unicode decimal digits.
- `AuthLogin.ValidateInput`: the request body is a map from strings to strings. A missing JSON body, non-string values and the resulting exceptions belong to the route and are not modelled.
- `AuthLogin.AfterFailure`: the lockout time (`datetime.now()` plus 15 minutes) is an opaque integer supplied by the caller.
- The Flask route, bcrypt, JWT, the request limiter and logging in the generated login service.
- Malformed catalogue or hint values, such as a non-list keyword field, would make the source raise. The model's types rule them out.
- A catalogue or hint field that is present with a null value is not told apart from a missing one. The source's `.get(key, default)` returns `None` for it, for example an artifact name of `None`, while the model falls back to the default.
- `SealManager.Seal`: the file path is `outputDir + "/" + name`, where `outputDir` stands for the normalised `str(Path(output_dir))`; the path normalisation of `pathlib`, such as dropping a trailing slash or a leading `./`, is not modelled.
- Concurrency: the source has none.
