# fapolicyd policy decision engine in Dafny

This project models the policy decision engine of fapolicyd, `src/policy.c`. fapolicyd is an
access-control daemon. For every file open or exec the kernel reports, it asks an ordered list of
administrator rules for a verdict. The model covers four parts:

- **Decision vocabulary** (`decisions.dfy`, module `Decisions`). It holds the numeric decision
  values and the fixed five-entry table (`no-opinion`, `allow`, `deny`, `allow_audit`,
  `deny_audit`). `dec_name_to_val` looks a name up case-insensitively, the way `strcasecmp` does,
  and returns -1 when the name is unknown. `dec_val_to_name` looks a value up and returns NULL when
  the value is unknown. `results & ~AUDIT` is modelled as `StripAudit`.
- **Reading the rule file** (`config_text.dfy`, module `ConfigText`). `get_line` is
  `fgets_unlocked(buf, 128, f)` followed by cutting the line at its first newline. `Fgets` gives the
  chunk that one call consumes, `Line` gives the string it returns, and `Lines` gives every line the
  loader sees. The open stream is the class `ConfigFile`: a text and a read position that
  `GetLine` advances. The file is a sequence of bytes: each `Byte` is a character below 256, so
  the lengths below count bytes, as `fgets` does.
- **Loader and lifecycle** (`policy.dfy`, module `Policy`). `load_config` numbers the lines from 1
  and hands each one to `rules_append`. It stops at the first rejected line, and it fails when the
  file does not open, when `fdopen` fails, or when no rule was loaded. `reload_config` destroys the
  list and then loads. `destroy_config` clears the list. The global `llist rules` is the class
  `RuleList`: an ordered sequence of rules and a cursor. The globals of `policy.c` are the class
  `PolicyEngine`. `LoadSpec` states what a load returns and leaves in the list. `LoadRules`, the
  loop that does the work, is proved against it.
- **First-match evaluator** (`policy.dfy`). `process_event` walks the list with
  `rules_first`/`rules_next`. It stops at the first rule whose `rule_evaluate` result is not
  `NO_OPINION`, returns that result with the audit bit cleared, and returns `ALLOW` when no rule has
  an opinion. `Evaluate`, `Results` and `FirstOpinion` specify this, and
  `PolicyEngine.ProcessEvent` is proved against them. The debug-log trigger at line 168 is the
  predicate `LogWanted`.

Assumptions, because the headers that define these are not part of this model:
- `policy.h` is assumed to define `NO_OPINION = 0`, `ALLOW = 1`, `DENY = 2`, an `AUDIT` flag bit
  `0x10`, `ALLOW_AUDIT = ALLOW|AUDIT` and `DENY_AUDIT = DENY|AUDIT`. The lemmas are proved for these
  values. The name/value lookups and round trips rely on the five values being distinct. The audit
  lemmas of the evaluator rely on AUDIT being a bit that neither ALLOW nor DENY has.
- `rules.h` is not part of this model. `rules_append` is a `Parser` parameter. For a line and its
  number, it either appends a rule, consumes the line without adding a rule, or rejects the line.
  The middle outcome exists because `load_config` counts the rules separately after reading (blank
  and comment lines). `rule_evaluate` for the event under evaluation is an `Evaluator` parameter,
  from a rule to a decision value.
- The list is assumed to number each node by its position when it is appended. This matches the
  1-based rule number `num + 1` that `log_it` prints.

## Model

| member | source | states |
|---|---|---|
| `Decisions.StripAudit` | src/policy.c:171-173 | the result has the AUDIT bit clear, and every other bit of the input is kept |
| `Decisions.NameIndex` | src/policy.c:54-58 | the scan stops at the first table row whose name equals the input ignoring case; no earlier row matches |
| `Decisions.ValueIndex` | src/policy.c:65-69 | the scan stops at the first table row holding the value; no earlier row holds it |
| `Decisions.DecNameToVal` | src/policy.c:51-60 | the loop returns the table value of the first row whose name matches ignoring case, or -1 when no row matches |
| `Decisions.DecValToName` | src/policy.c:62-71 | the loop returns the name of the row holding the value, or None (NULL) when no row holds it |
| `Decisions.TableNamesDistinct` | src/policy.c:41-47 | no two table names are equal ignoring case |
| `Decisions.NameToValueMeaning` | src/policy.c:41-60 | every case variant of a table name yields that row's value; -1 is returned exactly for names that match no row |
| `Decisions.NameToValueLowercase` | src/policy.c:55 | because the table names are lower case, a name matches a row exactly when its C-locale lower-casing equals that row's name |
| `Decisions.ValueToNameMeaning` | src/policy.c:62-71 | each of the five values gets its table name; every other value gets NULL |
| `Decisions.TableValueAt` | src/policy.c:41-47 | each table value fits in int and comes back unchanged, and the value lookup finds it at its own row |
| `Decisions.ValueNameRoundTrip` | src/policy.c:41-71 | for every table value v, dec_name_to_val(dec_val_to_name(v)) == v |
| `Decisions.NameValueRoundTrip` | src/policy.c:41-71 | a known name maps to a value whose table name equals that name ignoring case |
| `ConfigText.Fgets` | src/policy.c:75 | one fgets call consumes a prefix of the unread input: at most 127 bytes, none for empty input, a newline only as its last character, and it stops early only after a newline |
| `ConfigText.UpTo` | src/policy.c:77-79 | the result is the prefix before the first stop character, it does not contain that character, and the input is unchanged when the character is absent |
| `ConfigText.GetLineConsumesChunk` | src/policy.c:73-83 | get_line returns NULL exactly at end of input; otherwise it consumes exactly one non-empty fgets chunk |
| `ConfigText.LineBounds` | src/policy.c:73-83 | a returned line holds at most 127 bytes and no newline |
| `ConfigText.StripsOnlyFirstNewline` | src/policy.c:76-79 | for a NUL-free chunk, the line is the chunk itself or the chunk without its one trailing newline |
| `ConfigText.AllLinesBounded` | src/policy.c:109 | every line the loader receives is at most 127 bytes long and has no newline |
| `ConfigText.LongLineSplits` | src/policy.c:75 | a physical line longer than 127 bytes comes back as its first 127 bytes, and the next call continues right after them |
| `ConfigText.ConfigFile.constructor` | src/policy.c:102 | the stream starts at position 0 of the file text |
| `ConfigText.ConfigFile.GetLine` | src/policy.c:73-83 | returns the next line (None for NULL) and advances the read position past exactly the chunk it consumed |
| `Policy.AppendAllRc` | src/policy.c:109-116 | the read loop returns 0 or 1, and it returns 0 exactly when no line is rejected |
| `Policy.AppendAllRules` | src/policy.c:109-116 | rules already in the list are kept; each new rule is numbered by its position, comes from the line whose number it carries, and was accepted by the parser; line numbers increase along the list |
| `Policy.AppendAllComplete` | src/policy.c:109-116 | the converse: every line that the parser turns into a rule and that comes before the first rejected line (every such line, when none is rejected) has its rule in the list |
| `Policy.AppendAllGrows` | src/policy.c:109-122 | the list grows only if some line yields a rule, and it does grow when no line is rejected and some line yields a rule |
| `Policy.RejectStopsLoad` | src/policy.c:109-116 | at the first rejected line the load returns 1, and the outcome depends only on the lines up to that one, so later lines are never parsed |
| `Policy.LoadSucceedsIff` | src/policy.c:86-124 | load_config returns 0 exactly when the file opens, fdopen succeeds, no line is rejected and at least one rule is loaded; otherwise it returns 1; success implies a non-empty list |
| `Policy.LoadedRulesFollowLines` | src/policy.c:88-116 | after a load, the rules are numbered by position, carry the 1-based numbers of the lines they came from in read order, and were each accepted by the parser for that line; once the file has opened, every line before the first rejected one that the parser turns into a rule has its rule in the list |
| `Policy.EmptyPolicyRejected` | src/policy.c:119-122 | a file in which no line yields a rule makes load_config return 1 and leaves the list empty |
| `Policy.FailedLoadKeepsEarlierRules` | src/policy.c:109-114 | when the text is "a\nb" and line 2 is rejected, load_config returns 1 but the list still holds the rule from line 1 |
| `Policy.AtomicReloadNeverPartial` | src/policy.c:126-130 | with publish-on-success, a reload keeps the current rules whole or installs a complete, non-empty policy, so a daemon that had rules never ends up with none |
| `Policy.FirstOpinion` | src/policy.c:157-165 | the walk stops at the first rule whose result is not NO_OPINION, or at the end of the list; every rule before that point has no opinion |
| `Policy.FirstMatchWins` | src/policy.c:154-165 | when rule i is the first with an opinion, its result is the chosen one, and the engine returns that result with the audit bit cleared, whatever later rules say |
| `Policy.FailOpen` | src/policy.c:171-175 | the chosen result is NO_OPINION exactly when no rule has an opinion (including an empty list), and then the engine returns ALLOW |
| `Policy.EvaluateClearsAudit` | src/policy.c:171-175 | the returned decision never carries the AUDIT bit |
| `Policy.AuditInvisible` | src/policy.c:171-173 | two rule sets that differ only in audit bits (the same rules have an opinion, with the same stripped results) get the same returned decision |
| `Policy.ConcatPrecedence` | src/policy.c:157-165 | evaluating `rules + more` equals evaluating `rules` when some rule in `rules` has an opinion, and equals evaluating `more` otherwise |
| `Policy.TraceModeNullDereference` | src/policy.c:158-169 | as written, log_it dereferences the NULL cursor exactly when debug == 1 and no rule has an opinion |
| `Policy.LogDecisionSound` | src/policy.c:168-169 | the guarded record is emitted exactly when the source emits one; it carries the unstripped result and the winning rule's num+1; it names no rule exactly when no rule has an opinion; it agrees with the source wherever the source does not crash |
| `Policy.DenyOnlyTracing` | src/policy.c:168 | with debug > 1, a record is emitted exactly when the unstripped result is DENY, so deny_audit is never logged and the NULL dereference cannot occur |
| `Decisions.Lower` | src/policy.c:55 | defines the C-locale `tolower` that `strcasecmp` applies to each character: 'A'..'Z' become 'a'..'z', and every other character is unchanged |
| `Decisions.EqualsIgnoreCase` | src/policy.c:55 | defines `strcasecmp(a, b) == 0` for two C strings: equal lengths, and equal characters after `Lower`; `NameToValueMeaning` and `NameToValueLowercase` state what follows from it |
| `Decisions.NameToValue` | src/policy.c:51-60 | defines what dec_name_to_val returns: the value of the first matching row, or -1; `NameToValueMeaning` and `NameValueRoundTrip` state its properties |
| `Decisions.ValueToName` | src/policy.c:62-71 | defines what dec_val_to_name returns: the name of the row holding the value, or None (NULL); `ValueToNameMeaning` and `ValueNameRoundTrip` state its properties |
| `ConfigText.Line` | src/policy.c:76-80 | defines the string get_line returns: the chunk up to its first NUL (where the C string ends), then cut at its first newline; `LineBounds` and `StripsOnlyFirstNewline` state its properties |
| `ConfigText.NextLine` | src/policy.c:73-83 | defines one get_line call: None (NULL) at end of input; otherwise the line from one fgets chunk and the input after that chunk; `GetLineConsumesChunk` states its properties |
| `ConfigText.Lines` | src/policy.c:109 | defines every line that successive get_line calls return until NULL, in read order; `AllLinesBounded` and `LongLineSplits` state its properties |
| `Policy.AppendLine` | src/policy.c:110-111 | defines one rules_append call: None when the parser rejects the line; otherwise the list plus the rule the line yields, numbered by position, if it yields one |
| `Policy.AppendAll` | src/policy.c:109-116 | defines the read loop: it appends lines in order, numbered from `lineno`, and returns 1 with the current list at the first rejection, or 0 after the last line; `AppendAllRc`, `AppendAllRules`, `AppendAllComplete`, `AppendAllGrows` and `RejectStopsLoad` state its properties |
| `Policy.LoadSpec` | src/policy.c:86-124 | defines load_config's return code and final list: 1 with an empty list when open or fdopen fails; otherwise the read loop's list, with 1 on a rejection or an empty list and 0 otherwise; `LoadSucceedsIff`, `LoadedRulesFollowLines` and `EmptyPolicyRejected` state its properties |
| `Policy.CommitReload` | src/policy.c:126-130 | defines the corrected reload's result: the newly loaded list when the load returned 0, and otherwise the current list; `AtomicReloadNeverPartial` states its properties |
| `Policy.Results` | src/policy.c:154-165 | defines `results` after the loop: the result of the first rule with an opinion, or NO_OPINION; `FirstMatchWins` and `FailOpen` state its properties |
| `Policy.Evaluate` | src/policy.c:171-175 | defines process_event's return value: the chosen result with AUDIT cleared, or ALLOW when it is NO_OPINION; `FirstMatchWins`, `FailOpen`, `EvaluateClearsAudit`, `AuditInvisible` and `ConcatPrecedence` state its properties |
| `Policy.LogWanted` | src/policy.c:168 | defines the log trigger: debug == 1, or debug > 1 with the unstripped result equal to DENY; `LogDecisionSound` and `DenyOnlyTracing` state its properties |
| `Policy.LogAsWritten` | src/policy.c:168-169 | defines what lines 168-169 do as written: no record, a record with `r->num + 1` and the unstripped result, or a NULL dereference when the trigger fires with no winning rule; `TraceModeNullDereference` states when it crashes |
| `Policy.LogDecision` | src/policy.c:168-169 | defines the corrected record: the same trigger, with the winning rule's num + 1, or a "no rule" marker in place of `r->num`; `LogDecisionSound` states its properties |
| `Policy.RuleList.Current` | src/policy.c:158 | defines rules_get_cur: the rule under the cursor, or None (NULL) once the cursor has run off the end |
| `Policy.RuleList.constructor` | src/policy.c:92 | rules_create yields an empty list with the cursor at the start |
| `Policy.RuleList.Clear` | src/policy.c:180 | the list becomes empty |
| `Policy.RuleList.Append` | src/policy.c:110 | returns 0 exactly when the parser does not reject; on success the list is the old list plus the new rule, if the line yields one; on rejection the list is unchanged |
| `Policy.RuleList.First` | src/policy.c:157 | the cursor moves to the first rule and the rules are unchanged |
| `Policy.RuleList.Next` | src/policy.c:164 | the cursor advances by one, without going past the end, and the rule now under it is returned |
| `Policy.LoadRules` | src/policy.c:86-124 | the return code and the final list are those of `LoadSpec`: the list is cleared first, left empty when open or fdopen fails, and holds the rules read so far when a line is rejected |
| `Policy.PolicyEngine.constructor` | src/policy.c:39 | the engine starts with an empty rule list |
| `Policy.PolicyEngine.LoadConfig` | src/policy.c:86-124 | the return code and the global list are those of `LoadSpec` |
| `Policy.PolicyEngine.DestroyConfig` | src/policy.c:178-181 | the global list becomes empty |
| `Policy.PolicyEngine.ReloadConfig` | src/policy.c:126-130 | as written, the list afterwards is whatever the new load leaves, so the old rules are lost even when the load fails |
| `Policy.PolicyEngine.ReloadAtomic` | src/policy.c:126-130 | the corrected reload returns the load's code; the new list is published only on success, and on failure the old list object and its rules are kept |
| `Policy.PolicyEngine.ProcessEvent` | src/policy.c:152-176 | returns `Evaluate` of the list, which is the first opinion with AUDIT cleared, or ALLOW; emits the guarded log record; the list is unchanged; the cursor stops at the winning rule; rule_evaluate is called on exactly the rules up to and including the winner |

## Left out

- All of `src/fapolicyd.c` is left out: daemonizing, the pid file, signal handlers, resource limits, the fanotify/poll event loop and command-line parsing. `debug` is a parameter of `ProcessEvent`, with the values that `--debug` (1) and `--debug-deny` (2) set.
- Opening the file is not modelled. `open(O_NOFOLLOW)` and `fdopen` are two success flags in `ConfigSource`, and the file is its text. Read errors inside `fgets_unlocked`, `fclose` and the descriptor leaked when `fdopen` fails are not modelled.
- The `msg` transport and the formatting in `log_it` are not modelled. Only whether a record is emitted, its rule number and its decision value are modelled. The auid/pid/exe/path fields, and `get_subj_attr`/`get_obj_attr` returning NULL for a missing attribute, are not modelled.
- The rule grammar and matching (`rules_append` and `rule_evaluate` internals, in rules.c) are not part of this model. They are the abstract `Parser` and `Evaluator` parameters.
- `rules_create` is modelled as emptying the list. When it is called on a list that still holds rules, the C code leaks that list's memory; the model does not capture memory.
- The permissive flag and the enforcement of the returned decision are not modelled. Both live in callers outside `policy.c`.
- Concurrency between a reload and an evaluation in flight is not modelled. Every operation is sequential.
- `Policy.PolicyEngine.ProcessEvent` emits the corrected, guarded log record (see Findings). The NULL dereference of the source is modelled separately by `Policy.LogAsWritten`.
- Each `Byte` of the file text stands for one byte of the file. Character encodings are not modelled: a multi-byte character of the file is several `Byte`s.
- Three behaviours of the code are modelled as written:
  - An over-long line is not rejected; it is split into 127-byte chunks (`LongLineSplits`).
  - A failed load leaves the rules read so far in the list (`FailedLoadKeepsEarlierRules`). "## Findings" discusses this one.
  - Deny-only tracing compares the unstripped result with DENY, so `deny_audit` is not logged (`DenyOnlyTracing`).

## Findings

| source | as written | input that shows it | evidently intended | confidence | as-written member | corrected member |
|---|---|---|---|---|---|---|
| src/policy.c:158-169 | after the loop, `r` is NULL when no rule has an opinion, yet `log_it(r->num, …)` is still called when `debug == 1` | `debug == 1` and an empty rule list, or a list in which every rule returns NO_OPINION | emit the record with a "no rule" marker instead of dereferencing `r` | high (not executed) | `Policy.LogAsWritten`, `Policy.TraceModeNullDereference` | `Policy.LogDecision`, `Policy.LogDecisionSound` |
| src/policy.c:109-114, src/policy.c:126-130 | a rejected line returns 1 but leaves the earlier rules in the global list, and `reload_config` destroys the running policy before the new load has succeeded | text "a\nb" with line 2 rejected: the result is 1, and the list holds the rule from line 1 | build the new list separately and publish it only when the load succeeds | medium (not executed) | `Policy.PolicyEngine.ReloadConfig`, `Policy.FailedLoadKeepsEarlierRules` | `Policy.PolicyEngine.ReloadAtomic`, `Policy.AtomicReloadNeverPartial` |
