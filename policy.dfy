/**
 The policy decision engine of src/policy.c: the global rule list with its
 cursor, the config loader (load_config, reload_config, destroy_config) and
 the first-match evaluator with its debug-log trigger (process_event).

 rules.h is not part of this model. Its two operations are parameters:
 - rules_append is a `Parser` that, for a line and its 1-based line number,
   appends a rule, consumes the line without a rule (load_config checks the
   rule count separately, so lines may yield no rule), or rejects it;
 - rule_evaluate, for the event being processed, is an `Evaluator` from a
   rule to a decision value.
 The rule list is assumed to number its nodes by position (`num`), which is
 why log_it prints `num + 1`.
 */
module Policy {
  import opened Common
  import opened Decisions
  import opened ConfigText

  /** A node of the rule list: its position, the config line it came from, and that line. */
  datatype Rule = Rule(num: nat, lineno: nat, text: CString)

  /** What rules_append does with one line. */
  datatype AppendVerdict = Appended | Skipped | Rejected

  type Parser = (CString, nat) -> AppendVerdict

  /** rule_evaluate(·, e) for the event e under evaluation. */
  type Evaluator = Rule -> Decision

  /** The config file: whether open(O_NOFOLLOW) and fdopen succeed, and its text. */
  datatype ConfigSource = ConfigSource(opens: bool, fdopens: bool, text: seq<Byte>)

  /** load_config's return code and the rule list it leaves behind. */
  datatype LoadOutcome = LoadOutcome(rc: int, rules: seq<Rule>)

  // ---------------------------------------------------------------------
  // Loading: specification
  // ---------------------------------------------------------------------

  /** rules_append on a list holding `acc`: the new list, or None when the line is rejected. */
  function AppendLine(acc: seq<Rule>, line: CString, lineno: nat, parse: Parser): Option<seq<Rule>>
  {
    match parse(line, lineno)
    case Rejected => None
    case Skipped => Some(acc)
    case Appended => Some(acc + [Rule(|acc|, lineno, line)])
  }

  /** The read loop of load_config over `lines`, the first of them numbered `lineno`. */
  function AppendAll(lines: seq<CString>, parse: Parser, acc: seq<Rule>, lineno: nat): LoadOutcome
    decreases |lines|
  {
    if lines == [] then LoadOutcome(0, acc)
    else match AppendLine(acc, lines[0], lineno, parse)
      case None => LoadOutcome(1, acc)
      case Some(next) => AppendAll(lines[1..], parse, next, lineno + 1)
  }

  /** load_config as a whole: what it returns and what the rule list holds afterwards. */
  function LoadSpec(src: ConfigSource, parse: Parser): LoadOutcome
  {
    if !src.opens || !src.fdopens then LoadOutcome(1, [])
    else
      var o := AppendAll(Lines(src.text), parse, [], 1);
      LoadOutcome(if o.rc != 0 || |o.rules| == 0 then 1 else 0, o.rules)
  }

  /** The line at index j of `lines` is rejected when it carries number lineno + j. */
  predicate RejectedAt(lines: seq<CString>, parse: Parser, lineno: nat, j: nat)
    requires j < |lines|
  {
    parse(lines[j], lineno + j) == Rejected
  }

  /** The line at index j of `lines` yields a rule when it carries number lineno + j. */
  predicate AppendedAt(lines: seq<CString>, parse: Parser, lineno: nat, j: nat)
    requires j < |lines|
  {
    parse(lines[j], lineno + j) == Appended
  }

  /** The read loop succeeds exactly when no line is rejected, and returns 0 or 1. */
  lemma {:induction false} AppendAllRc(lines: seq<CString>, parse: Parser, acc: seq<Rule>, lineno: nat)
    ensures var o := AppendAll(lines, parse, acc, lineno);
            (o.rc == 0 || o.rc == 1) &&
            (o.rc == 0 <==> forall j | 0 <= j < |lines| :: !RejectedAt(lines, parse, lineno, j))
    decreases |lines|
  {
    if lines != [] {
      match AppendLine(acc, lines[0], lineno, parse)
      case None =>
        assert RejectedAt(lines, parse, lineno, 0);
      case Some(next) =>
        var tail, n := lines[1..], lineno + 1;
        AppendAllRc(tail, parse, next, n);
        if AppendAll(tail, parse, next, n).rc == 0 {
          forall j | 0 <= j < |lines|
            ensures !RejectedAt(lines, parse, lineno, j)
          {
            if j > 0 { assert !RejectedAt(tail, parse, n, j - 1); }
          }
        } else {
          var j :| 0 <= j < |tail| && RejectedAt(tail, parse, n, j);
          assert RejectedAt(lines, parse, lineno, j + 1);
        }
    }
  }

  /** The read loop gets as far as the line at index j: no line before it is rejected. */
  predicate ReachedAt(lines: seq<CString>, parse: Parser, lineno: nat, j: nat)
    requires j <= |lines|
  {
    forall j' | 0 <= j' < j :: !RejectedAt(lines, parse, lineno, j')
  }

  /**
   The read loop keeps the rules it had, numbers the new ones by position,
   and takes each from the line whose number it carries, in increasing line
   order. AppendAllComplete states the converse.
   */
  lemma {:induction false} AppendAllRules(lines: seq<CString>, parse: Parser, acc: seq<Rule>, lineno: nat)
    ensures var o := AppendAll(lines, parse, acc, lineno);
            |acc| <= |o.rules| && o.rules[..|acc|] == acc
    ensures var o := AppendAll(lines, parse, acc, lineno);
            forall i | |acc| <= i < |o.rules| ::
              o.rules[i].num == i &&
              lineno <= o.rules[i].lineno < lineno + |lines| &&
              o.rules[i].text == lines[o.rules[i].lineno - lineno] &&
              AppendedAt(lines, parse, lineno, o.rules[i].lineno - lineno)
    ensures var o := AppendAll(lines, parse, acc, lineno);
            forall i, i' | |acc| <= i < i' < |o.rules| :: o.rules[i].lineno < o.rules[i'].lineno
    decreases |lines|
  {
    if lines != [] {
      match AppendLine(acc, lines[0], lineno, parse)
      case None =>
      case Some(next) =>
        AppendAllRules(lines[1..], parse, next, lineno + 1);
    }
  }

  /** Every line the read loop reaches that the parser turns into a rule is in the list. */
  lemma {:induction false} AppendAllComplete(lines: seq<CString>, parse: Parser, acc: seq<Rule>, lineno: nat)
    ensures var o := AppendAll(lines, parse, acc, lineno);
            forall j | 0 <= j < |lines| && AppendedAt(lines, parse, lineno, j) && ReachedAt(lines, parse, lineno, j) ::
              exists i | |acc| <= i < |o.rules| :: o.rules[i].lineno == lineno + j
    decreases |lines|
  {
    if lines != [] {
      match AppendLine(acc, lines[0], lineno, parse)
      case None =>
        assert RejectedAt(lines, parse, lineno, 0);
      case Some(next) =>
        var tail, n := lines[1..], lineno + 1;
        AppendAllRules(tail, parse, next, n);
        AppendAllComplete(tail, parse, next, n);
        var o := AppendAll(tail, parse, next, n);
        assert AppendAll(lines, parse, acc, lineno) == o;
        forall j | 0 <= j < |lines| && AppendedAt(lines, parse, lineno, j) && ReachedAt(lines, parse, lineno, j)
          ensures exists i | |acc| <= i < |o.rules| :: o.rules[i].lineno == lineno + j
        {
          if j == 0 {
            assert o.rules[|acc|] == next[|acc|];
          } else {
            assert AppendedAt(tail, parse, n, j - 1);
            forall j' | 0 <= j' < j - 1
              ensures !RejectedAt(tail, parse, n, j')
            {
              assert !RejectedAt(lines, parse, lineno, j' + 1);
            }
            assert ReachedAt(tail, parse, n, j - 1);
            var i :| |next| <= i < |o.rules| && o.rules[i].lineno == n + (j - 1);
          }
        }
    }
  }

  /** The read loop ends with more rules than it started with exactly when it succeeds past a line that yields one. */
  lemma {:induction false} AppendAllGrows(lines: seq<CString>, parse: Parser, acc: seq<Rule>, lineno: nat)
    ensures var o := AppendAll(lines, parse, acc, lineno);
            |o.rules| > |acc| ==> exists j | 0 <= j < |lines| :: AppendedAt(lines, parse, lineno, j)
    ensures var o := AppendAll(lines, parse, acc, lineno);
            o.rc == 0 && (exists j | 0 <= j < |lines| :: AppendedAt(lines, parse, lineno, j)) ==>
            |o.rules| > |acc|
    decreases |lines|
  {
    if lines != [] {
      match AppendLine(acc, lines[0], lineno, parse)
      case None =>
      case Some(next) =>
        var tail, n := lines[1..], lineno + 1;
        AppendAllGrows(tail, parse, next, n);
        AppendAllRules(tail, parse, next, n);
        var o := AppendAll(tail, parse, next, n);
        if |o.rules| > |acc| && !AppendedAt(lines, parse, lineno, 0) {
          var j :| 0 <= j < |tail| && AppendedAt(tail, parse, n, j);
          assert AppendedAt(lines, parse, lineno, j + 1);
        }
        if o.rc == 0 && exists j | 0 <= j < |lines| :: AppendedAt(lines, parse, lineno, j) {
          var j :| 0 <= j < |lines| && AppendedAt(lines, parse, lineno, j);
          if j > 0 {
            assert AppendedAt(tail, parse, n, j - 1);
          }
        }
    }
  }

  /**
   The load stops at the first rejected line: it reports failure, and the
   outcome is decided by the lines up to that one, so later lines are never
   handed to the parser.
   */
  lemma {:induction false} RejectStopsLoad(lines: seq<CString>, parse: Parser, acc: seq<Rule>, lineno: nat, k: nat)
    requires k < |lines| && RejectedAt(lines, parse, lineno, k)
    requires forall j | 0 <= j < k :: !RejectedAt(lines, parse, lineno, j)
    ensures AppendAll(lines, parse, acc, lineno) == AppendAll(lines[..k + 1], parse, acc, lineno)
    ensures AppendAll(lines, parse, acc, lineno).rc == 1
    decreases k
  {
    if k > 0 {
      assert !RejectedAt(lines, parse, lineno, 0);
      var next := AppendLine(acc, lines[0], lineno, parse).value;
      var tail, n := lines[1..], lineno + 1;
      forall j | 0 <= j < k - 1
        ensures !RejectedAt(tail, parse, n, j)
      {
        assert !RejectedAt(lines, parse, lineno, j + 1);
      }
      RejectStopsLoad(tail, parse, next, n, k - 1);
      assert lines[..k + 1][1..] == lines[1..][..k];
    }
  }

  /**
   load_config succeeds exactly when the file opens, fdopen succeeds, no line
   is rejected and at least one line yields a rule; otherwise it returns 1.
   */
  lemma LoadSucceedsIff(src: ConfigSource, parse: Parser)
    ensures LoadSpec(src, parse).rc == 0 || LoadSpec(src, parse).rc == 1
    ensures LoadSpec(src, parse).rc == 0 <==>
            src.opens && src.fdopens &&
            (forall j | 0 <= j < |Lines(src.text)| :: !RejectedAt(Lines(src.text), parse, 1, j)) &&
            (exists j | 0 <= j < |Lines(src.text)| :: AppendedAt(Lines(src.text), parse, 1, j))
    ensures LoadSpec(src, parse).rc == 0 ==> |LoadSpec(src, parse).rules| > 0
  {
    var lines := Lines(src.text);
    AppendAllRc(lines, parse, [], 1);
    AppendAllGrows(lines, parse, [], 1);
  }

  /**
   The rules a load leaves in the list are numbered by position, each comes
   from the line whose 1-based number it carries and which the parser turned
   into a rule, and they keep the order of their lines in the file; every
   line read before the first rejected one (every line, when none is) that
   the parser turns into a rule is in the list, once the file has opened.
   */
  lemma LoadedRulesFollowLines(src: ConfigSource, parse: Parser)
    ensures var rules := LoadSpec(src, parse).rules;
            var lines := Lines(src.text);
            forall i | 0 <= i < |rules| ::
              rules[i].num == i && 1 <= rules[i].lineno <= |lines| &&
              rules[i].text == lines[rules[i].lineno - 1] &&
              parse(rules[i].text, rules[i].lineno) == Appended
    ensures var rules := LoadSpec(src, parse).rules;
            forall i, i' | 0 <= i < i' < |rules| :: rules[i].lineno < rules[i'].lineno
    ensures var rules := LoadSpec(src, parse).rules;
            var lines := Lines(src.text);
            src.opens && src.fdopens ==>
            forall j | 0 <= j < |lines| && AppendedAt(lines, parse, 1, j) && ReachedAt(lines, parse, 1, j) ::
              exists i | 0 <= i < |rules| :: rules[i].lineno == j + 1
  {
    AppendAllRules(Lines(src.text), parse, [], 1);
    AppendAllComplete(Lines(src.text), parse, [], 1);
  }

  /** A rule file in which no line yields a rule (an empty file, say) is refused. */
  lemma EmptyPolicyRejected(src: ConfigSource, parse: Parser)
    requires forall j | 0 <= j < |Lines(src.text)| :: !AppendedAt(Lines(src.text), parse, 1, j)
    ensures LoadSpec(src, parse) == LoadOutcome(1, [])
  {
    AppendAllGrows(Lines(src.text), parse, [], 1);
  }

  /**
   As written, a rejected line leaves the rules of the lines before it in the
   list: with the text "a\nb" and a parser that accepts line 1 only,
   load_config returns 1 and the list still holds the rule from line 1.
   */
  lemma FailedLoadKeepsEarlierRules()
    ensures var parse: Parser := (line: CString, n: nat) => if n == 1 then Appended else Rejected;
            LoadSpec(ConfigSource(true, true, "a\nb"), parse) == LoadOutcome(1, [Rule(0, 1, "a")])
  {
    var parse: Parser := (line: CString, n: nat) => if n == 1 then Appended else Rejected;
    var text := "a\nb";
    assert Fgets(text, MAX_CHUNK) == "a\n" by {
      assert Fgets(text[1..], MAX_CHUNK - 1) == "\n";
    }
    assert UpTo("a\n", '\0') == "a\n";
    assert UpTo("a\n", '\n') == "a" by {
      assert UpTo("\n", '\n') == [];
    }
    assert text[2..] == "b";
    assert Fgets("b", MAX_CHUNK) == "b" by {
      assert Fgets("b"[1..], MAX_CHUNK - 1) == [];
    }
    assert UpTo("b", '\0') == "b" && UpTo("b", '\n') == "b";
    assert Lines("b"[1..]) == [];
    assert Lines("b") == ["b"];
    assert Lines(text) == ["a", "b"];
    assert ["a", "b"][1..] == ["b"];
  }

  // ---------------------------------------------------------------------
  // Reload with publish-on-success (the corrected behaviour)
  // ---------------------------------------------------------------------

  /** The list in service after a reload that only publishes a successful load. */
  function CommitReload(current: seq<Rule>, o: LoadOutcome): seq<Rule>
  {
    if o.rc == 0 then o.rules else current
  }

  /**
   With publish-on-success, a reload either keeps the current policy whole or
   puts in service a policy whose every line was accepted and which holds at
   least one rule; a daemon that had a policy never ends up without one.
   */
  lemma AtomicReloadNeverPartial(current: seq<Rule>, src: ConfigSource, parse: Parser)
    ensures var o := LoadSpec(src, parse);
            var next := CommitReload(current, o);
            (o.rc != 0 && next == current) ||
            (o.rc == 0 && next == o.rules && |next| > 0 &&
             forall j | 0 <= j < |Lines(src.text)| :: !RejectedAt(Lines(src.text), parse, 1, j))
    ensures current != [] ==> CommitReload(current, LoadSpec(src, parse)) != []
  {
    LoadSucceedsIff(src, parse);
  }

  // ---------------------------------------------------------------------
  // Evaluation: specification
  // ---------------------------------------------------------------------

  /** The index of the first rule at or after `from` with an opinion, or |rules|. */
  function FirstOpinion(rules: seq<Rule>, eval: Evaluator, from: nat): (k: nat)
    requires from <= |rules|
    ensures from <= k <= |rules|
    ensures k < |rules| ==> eval(rules[k]) != NO_OPINION
    ensures forall j | from <= j < k :: eval(rules[j]) == NO_OPINION
    decreases |rules| - from
  {
    if from == |rules| then from
    else if eval(rules[from]) != NO_OPINION then from
    else FirstOpinion(rules, eval, from + 1)
  }

  /** `results` when the loop of process_event ends: the chosen result, or NO_OPINION. */
  function Results(rules: seq<Rule>, eval: Evaluator): Decision
  {
    var k := FirstOpinion(rules, eval, 0);
    if k < |rules| then eval(rules[k]) else NO_OPINION
  }

  /** The value process_event returns. */
  function Evaluate(rules: seq<Rule>, eval: Evaluator): Decision
  {
    var results := Results(rules, eval);
    if results != NO_OPINION then StripAudit(results) else ALLOW
  }

  /**
   First match wins: when rule i is the first with an opinion, its result is
   the chosen one and the engine returns it without the audit bit, whatever
   the later rules say.
   */
  lemma FirstMatchWins(rules: seq<Rule>, eval: Evaluator, i: nat)
    requires i < |rules| && eval(rules[i]) != NO_OPINION
    requires forall j | 0 <= j < i :: eval(rules[j]) == NO_OPINION
    ensures Results(rules, eval) == eval(rules[i])
    ensures Evaluate(rules, eval) == StripAudit(eval(rules[i]))
  {
  }

  /**
   Fail-open: no rule has an opinion (the empty list included) exactly when
   the chosen result is NO_OPINION, and then the engine returns ALLOW.
   */
  lemma FailOpen(rules: seq<Rule>, eval: Evaluator)
    ensures Results(rules, eval) == NO_OPINION <==>
            forall j | 0 <= j < |rules| :: eval(rules[j]) == NO_OPINION
    ensures Results(rules, eval) == NO_OPINION ==> Evaluate(rules, eval) == ALLOW
  {
  }

  /** The returned decision never carries the audit bit. */
  lemma EvaluateClearsAudit(rules: seq<Rule>, eval: Evaluator)
    ensures Evaluate(rules, eval) & AUDIT == 0
  {
  }

  /**
   The audit bit is invisible to enforcement: two evaluations that agree on
   which rules have an opinion and on every result up to the audit bit
   return the same decision.
   */
  lemma AuditInvisible(rules: seq<Rule>, eval: Evaluator, eval': Evaluator)
    requires forall j | 0 <= j < |rules| ::
               (eval(rules[j]) == NO_OPINION <==> eval'(rules[j]) == NO_OPINION) &&
               StripAudit(eval(rules[j])) == StripAudit(eval'(rules[j]))
    ensures Evaluate(rules, eval) == Evaluate(rules, eval')
  {
  }

  /**
   Precedence is list order: evaluating `rules + more` is evaluating `rules`
   when some rule of `rules` has an opinion, and evaluating `more` otherwise.
   */
  lemma ConcatPrecedence(rules: seq<Rule>, more: seq<Rule>, eval: Evaluator)
    ensures Evaluate(rules + more, eval) ==
            if Results(rules, eval) != NO_OPINION then Evaluate(rules, eval) else Evaluate(more, eval)
  {
    var all := rules + more;
    var k := FirstOpinion(rules, eval, 0);
    var ka := FirstOpinion(all, eval, 0);
    if k < |rules| {
      assert all[k] == rules[k];
      assert ka == k;
    } else {
      var km := FirstOpinion(more, eval, 0);
      assert forall j | 0 <= j < |rules| :: all[j] == rules[j];
      assert |rules| <= ka;
      if km < |more| {
        assert all[|rules| + km] == more[km];
        assert ka == |rules| + km;
      } else {
        assert ka == |all|;
      }
    }
  }

  // ---------------------------------------------------------------------
  // The debug log record
  // ---------------------------------------------------------------------

  /**
   The trigger at src/policy.c:168: full tracing (debug == 1), or deny-only
   tracing (debug > 1) with the unstripped result equal to DENY.
   */
  predicate LogWanted(debug: int, results: Decision)
  {
    (debug > 1 && results == DENY) || debug == 1
  }

  /** What lines 168-169 do as written: no record, a record, or a NULL dereference. */
  datatype LogEffect = Silent | Emitted(ruleNum: nat, decision: Decision) | NullDereference

  /** log_it(r->num, results, e) where `r` is the list cursor after the loop. */
  function LogAsWritten(debug: int, rules: seq<Rule>, eval: Evaluator): LogEffect
  {
    var k := FirstOpinion(rules, eval, 0);
    if !LogWanted(debug, Results(rules, eval)) then Silent
    else if k < |rules| then Emitted(rules[k].num + 1, Results(rules, eval))
    else NullDereference
  }

  /**
   As written, the record dereferences the NULL cursor exactly in full-trace
   mode when no rule has an opinion (the empty list included).
   */
  lemma TraceModeNullDereference(debug: int, rules: seq<Rule>, eval: Evaluator)
    ensures LogAsWritten(debug, rules, eval) == NullDereference <==>
            debug == 1 && forall j | 0 <= j < |rules| :: eval(rules[j]) == NO_OPINION
  {
    FailOpen(rules, eval);
  }

  /** The record the corrected engine emits: the winning rule's 1-based number, or None for "no rule". */
  datatype LogRecord = LogRecord(rule: Option<nat>, decision: Decision)

  /** The corrected trigger: the same condition, with a "no rule" sentinel instead of `r->num`. */
  function LogDecision(debug: int, rules: seq<Rule>, eval: Evaluator): Option<LogRecord>
  {
    var k := FirstOpinion(rules, eval, 0);
    if !LogWanted(debug, Results(rules, eval)) then None
    else Some(LogRecord(if k < |rules| then Some(rules[k].num + 1) else None, Results(rules, eval)))
  }

  /**
   The corrected record is emitted exactly when the source emits one, carries
   the unstripped result and the winning rule's num + 1, names no rule exactly
   when none had an opinion, and agrees with the source wherever the source
   does not dereference NULL.
   */
  lemma LogDecisionSound(debug: int, rules: seq<Rule>, eval: Evaluator)
    ensures LogDecision(debug, rules, eval).Some? <==> LogWanted(debug, Results(rules, eval))
    ensures LogDecision(debug, rules, eval).Some? ==>
            var rec := LogDecision(debug, rules, eval).value;
            rec.decision == Results(rules, eval) &&
            (rec.rule.None? <==> forall j | 0 <= j < |rules| :: eval(rules[j]) == NO_OPINION) &&
            (rec.rule.Some? ==> exists i | 0 <= i < |rules| :: rec.rule.value == rules[i].num + 1 &&
                                  eval(rules[i]) == rec.decision)
    ensures forall n: nat, d: Decision ::
              LogAsWritten(debug, rules, eval) == Emitted(n, d) <==>
              LogDecision(debug, rules, eval) == Some(LogRecord(Some(n), d))
    ensures LogAsWritten(debug, rules, eval) == Silent <==> LogDecision(debug, rules, eval) == None
  {
    FailOpen(rules, eval);
  }

  /**
   Deny-only tracing logs exactly the results equal to DENY: deny_audit is
   not logged, and this mode never reaches the NULL dereference.
   */
  lemma DenyOnlyTracing(debug: int, rules: seq<Rule>, eval: Evaluator)
    requires debug > 1
    ensures LogDecision(debug, rules, eval).Some? <==> Results(rules, eval) == DENY
    ensures Results(rules, eval) == DENY_AUDIT ==> LogDecision(debug, rules, eval) == None
    ensures LogAsWritten(debug, rules, eval) != NullDereference
  {
  }

  // ---------------------------------------------------------------------
  // The rule list (llist) and its cursor
  // ---------------------------------------------------------------------

  /** The global `llist rules`: the ordered rules and the cursor used by rules_first/rules_next. */
  class RuleList {
    var items: seq<Rule>
    var cur: nat

    ghost predicate Valid()
      reads this
    {
      cur <= |items|
    }

    /** rules_create. */
    constructor ()
      ensures Valid() && items == [] && cur == 0
    {
      items := [];
      cur := 0;
    }

    /** rules_create on the existing list, or rules_clear: the list becomes empty. */
    method Clear()
      modifies this
      ensures Valid() && items == [] && cur == 0
    {
      items := [];
      cur := 0;
    }

    /** rules_append: hand the line to the parser and append the rule it yields; non-zero on rejection. */
    method Append(line: CString, lineno: nat, parse: Parser) returns (rc: int)
      requires Valid()
      modifies this
      ensures Valid() && cur == old(cur)
      ensures rc == 0 <==> AppendLine(old(items), line, lineno, parse).Some?
      ensures match AppendLine(old(items), line, lineno, parse)
              case Some(next) => items == next
              case None => items == old(items)
    {
      match parse(line, lineno)
      case Rejected =>
        rc := 1;
      case Skipped =>
        rc := 0;
      case Appended =>
        items := items + [Rule(|items|, lineno, line)];
        rc := 0;
    }

    /** rules_get_cur: the rule under the cursor, None once it has run off the end. */
    function Current(): Option<Rule>
      reads this
      requires Valid()
    {
      if cur < |items| then Some(items[cur]) else None
    }

    /** rules_first: put the cursor on the first rule. */
    method First()
      requires Valid()
      modifies this
      ensures Valid() && items == old(items) && cur == 0
    {
      cur := 0;
    }

    /** rules_next: advance the cursor and return the rule now under it. */
    method Next() returns (r: Option<Rule>)
      requires Valid()
      modifies this
      ensures Valid() && items == old(items)
      ensures cur == if old(cur) < |items| then old(cur) + 1 else old(cur)
      ensures r == Current()
    {
      if cur < |items| {
        cur := cur + 1;
      }
      r := Current();
    }
  }

  /** The line load_config holds, followed by the lines still to read. */
  function Pending(line: Option<CString>, rest: seq<char>): seq<CString>
  {
    match line
    case None => []
    case Some(l) => [l] + Lines(rest)
  }

  /** The body of load_config, run on the rule list `list`. */
  method LoadRules(list: RuleList, src: ConfigSource, parse: Parser) returns (rc: int)
    modifies list
    ensures list.Valid()
    ensures rc == LoadSpec(src, parse).rc && list.items == LoadSpec(src, parse).rules
  {
    list.Clear();
    if !src.opens {
      return 1;
    }
    if !src.fdopens {
      return 1;
    }
    var f := new ConfigFile(src.text);
    var lineno := 1;
    ghost var goal := AppendAll(Lines(src.text), parse, [], 1);
    var line := f.GetLine();
    while line.Some?
      invariant f.Valid() && list.Valid()
      invariant AppendAll(Pending(line, f.Rest()), parse, list.items, lineno) == goal
      decreases |f.Rest()| + (if line.Some? then 1 else 0)
    {
      ghost var rest := f.Rest();
      ghost var held := line;
      var failed := list.Append(line.value, lineno, parse);
      if failed != 0 {
        return 1;
      }
      lineno := lineno + 1;
      line := f.GetLine();
      assert Pending(held, rest)[1..] == Lines(rest);
    }
    if |list.items| == 0 {
      return 1;
    }
    return 0;
  }

  // ---------------------------------------------------------------------
  // The engine: the global rule list and the operations over it
  // ---------------------------------------------------------------------

  class PolicyEngine {
    var rules: RuleList

    ghost predicate Valid()
      reads this, rules
    {
      rules.Valid()
    }

    constructor ()
      ensures Valid() && fresh(rules) && rules.items == []
    {
      rules := new RuleList();
    }

    /** load_config: 0 on success, 1 on error; the list holds whatever the load left in it. */
    method LoadConfig(src: ConfigSource, parse: Parser) returns (rc: int)
      requires Valid()
      modifies rules
      ensures Valid() && rules == old(rules)
      ensures rc == LoadSpec(src, parse).rc && rules.items == LoadSpec(src, parse).rules
    {
      rc := LoadRules(rules, src, parse);
    }

    /** destroy_config: clear the global list. */
    method DestroyConfig()
      requires Valid()
      modifies rules
      ensures Valid() && rules == old(rules) && rules.items == []
    {
      rules.Clear();
    }

    /**
     reload_config as written: destroy, then load. The previous rules are gone
     whether or not the new load succeeds.
     */
    method ReloadConfig(src: ConfigSource, parse: Parser) returns (rc: int)
      requires Valid()
      modifies rules
      ensures Valid() && rules == old(rules)
      ensures rc == LoadSpec(src, parse).rc && rules.items == LoadSpec(src, parse).rules
    {
      DestroyConfig();
      rc := LoadConfig(src, parse);
    }

    /**
     The corrected reload: build the new list apart, and publish it by
     swapping the reference only when the load succeeded.
     */
    method ReloadAtomic(src: ConfigSource, parse: Parser) returns (rc: int)
      requires Valid()
      modifies this
      ensures Valid()
      ensures rc == LoadSpec(src, parse).rc
      ensures rules.items == CommitReload(old(rules.items), LoadSpec(src, parse))
      ensures rc != 0 ==> rules == old(rules)
    {
      var next := new RuleList();
      rc := LoadRules(next, src, parse);
      if rc == 0 {
        rules := next;
      }
    }

    /**
     process_event: walk the list from its first rule and stop at the first
     result other than NO_OPINION; return it without the audit bit, or ALLOW
     when no rule had an opinion. The log record follows the corrected
     trigger; `evaluated` lists the rules rule_evaluate was called on.
     */
    method ProcessEvent(eval: Evaluator, debug: int)
      returns (decision: Decision, log: Option<LogRecord>, ghost evaluated: seq<Rule>)
      requires Valid()
      modifies rules
      ensures Valid() && rules == old(rules) && rules.items == old(rules.items)
      ensures decision == Evaluate(rules.items, eval)
      ensures log == LogDecision(debug, rules.items, eval)
      ensures var k := FirstOpinion(rules.items, eval, 0);
              rules.cur == k && evaluated == rules.items[..if k < |rules.items| then k + 1 else k]
    {
      var results := NO_OPINION;
      evaluated := [];
      rules.First();
      var r := rules.Current();
      while r.Some?
        invariant rules.Valid() && rules.items == old(rules.items)
        invariant r == rules.Current()
        invariant results == NO_OPINION
        invariant forall j | 0 <= j < rules.cur :: eval(rules.items[j]) == NO_OPINION
        invariant evaluated == rules.items[..rules.cur]
        decreases |rules.items| - rules.cur
      {
        results := eval(r.value);
        evaluated := evaluated + [r.value];
        if results != NO_OPINION {
          break;
        }
        r := rules.Next();
      }
      if LogWanted(debug, results) {
        log := Some(LogRecord(if r.Some? then Some(r.value.num + 1) else None, results));
      } else {
        log := None;
      }
      if results != NO_OPINION {
        decision := StripAudit(results);
      } else {
        decision := ALLOW;
      }
    }
  }
}
