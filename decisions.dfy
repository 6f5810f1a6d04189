/**
 The decision vocabulary of the policy engine (src/policy.c:41-71): the
 numeric decision values, the fixed five-entry name table, and the two
 lookups over it.

 The numeric values live in policy.h, which is not part of this model. They
 are ASSUMED here to be NO_OPINION = 0, ALLOW = 1, DENY = 2 and a separate
 AUDIT flag bit 0x10, with ALLOW_AUDIT = ALLOW | AUDIT and
 DENY_AUDIT = DENY | AUDIT. The lemmas below are proved for these values;
 among them, the round trips rely on the five values being distinct, and the
 audit lemmas of the evaluator on AUDIT being a bit that neither ALLOW nor
 DENY has.
 */
module Decisions {
  import opened Common

  /** decision_t, and the `unsigned int` taken by dec_val_to_name. */
  type Decision = bv32

  const NO_OPINION: Decision := 0
  const ALLOW: Decision := 1
  const DENY: Decision := 2
  const AUDIT: Decision := 0x10
  const ALLOW_AUDIT: Decision := ALLOW | AUDIT
  const DENY_AUDIT: Decision := DENY | AUDIT

  /** One row of the `nv_t table[]`. */
  datatype Entry = Entry(value: Decision, name: CString)

  /** The constant table, in source order; MAX_DECISIONS is its length. */
  const Table: seq<Entry> := [
    Entry(NO_OPINION, "no-opinion"),
    Entry(ALLOW, "allow"),
    Entry(DENY, "deny"),
    Entry(ALLOW_AUDIT, "allow_audit"),
    Entry(DENY_AUDIT, "deny_audit")
  ]

  /** `results & ~AUDIT`: the enforcement verdict without the audit flag. */
  function StripAudit(d: Decision): (r: Decision)
    ensures r & AUDIT == 0
    ensures r | (d & AUDIT) == d
  {
    d & !AUDIT
  }

  /** tolower in the C locale: only 'A'..'Z' change. */
  function Lower(c: char): char
  {
    if 'A' <= c <= 'Z' then (c as int - 'A' as int + 'a' as int) as char else c
  }

  /** `strcasecmp(a, b) == 0` for two C strings. */
  predicate EqualsIgnoreCase(a: CString, b: CString)
  {
    |a| == |b| && forall i | 0 <= i < |a| :: Lower(a[i]) == Lower(b[i])
  }

  /** The first table index at or after `i` whose name matches `name`, or |Table|. */
  function NameIndex(name: CString, i: nat): (k: nat)
    requires i <= |Table|
    ensures i <= k <= |Table|
    ensures k < |Table| ==> EqualsIgnoreCase(name, Table[k].name)
    ensures forall j | i <= j < k :: !EqualsIgnoreCase(name, Table[j].name)
    decreases |Table| - i
  {
    if i == |Table| then i
    else if EqualsIgnoreCase(name, Table[i].name) then i
    else NameIndex(name, i + 1)
  }

  /** The first table index at or after `i` whose value is `v`, or |Table|. */
  function ValueIndex(v: Decision, i: nat): (k: nat)
    requires i <= |Table|
    ensures i <= k <= |Table|
    ensures k < |Table| ==> Table[k].value == v
    ensures forall j | i <= j < k :: Table[j].value != v
    decreases |Table| - i
  {
    if i == |Table| then i
    else if Table[i].value == v then i
    else ValueIndex(v, i + 1)
  }

  /** What dec_name_to_val returns: the table value, or -1 for an unknown name. */
  function NameToValue(name: CString): int
  {
    var k := NameIndex(name, 0);
    if k < |Table| then Table[k].value as int else -1
  }

  /** What dec_val_to_name returns: the table name, or NULL for an unknown value. */
  function ValueToName(v: Decision): Option<CString>
  {
    var k := ValueIndex(v, 0);
    if k < |Table| then Some(Table[k].name) else None
  }

  /** dec_name_to_val: a linear scan of the table with strcasecmp. */
  method DecNameToVal(name: CString) returns (v: int)
    ensures v == NameToValue(name)
  {
    var i := 0;
    while i < |Table|
      invariant i <= |Table|
      invariant NameIndex(name, i) == NameIndex(name, 0)
    {
      if EqualsIgnoreCase(name, Table[i].name) {
        return Table[i].value as int;
      }
      i := i + 1;
    }
    return -1;
  }

  /** dec_val_to_name: a linear scan of the table comparing values. */
  method DecValToName(v: Decision) returns (name: Option<CString>)
    ensures name == ValueToName(v)
  {
    var i := 0;
    while i < |Table|
      invariant i <= |Table|
      invariant ValueIndex(v, i) == ValueIndex(v, 0)
    {
      if v == Table[i].value {
        return Some(Table[i].name);
      }
      i := i + 1;
    }
    return None;
  }

  /** No two table names are equal ignoring case, so a name matches at most one row. */
  lemma TableNamesDistinct(j: nat, k: nat)
    requires j < k < |Table|
    ensures !EqualsIgnoreCase(Table[j].name, Table[k].name)
  {
    if |Table[j].name| == |Table[k].name| {
      // the only same-length pair is no-opinion / deny_audit
      assert Lower(Table[j].name[0]) != Lower(Table[k].name[0]);
    }
  }

  /** strcasecmp equality is symmetric and transitive. */
  lemma EqualsIgnoreCaseTrans(a: CString, b: CString, c: CString)
    requires EqualsIgnoreCase(a, b) && EqualsIgnoreCase(a, c)
    ensures EqualsIgnoreCase(b, c)
  {
  }

  /**
   dec_name_to_val is case-insensitive and exact: every case variant of a
   table name yields that row's value, and -1 comes back exactly when the
   name matches no row.
   */
  lemma NameToValueMeaning(name: CString)
    ensures NameToValue(name) == -1 <==>
            forall k | 0 <= k < |Table| :: !EqualsIgnoreCase(name, Table[k].name)
    ensures forall k | 0 <= k < |Table| && EqualsIgnoreCase(name, Table[k].name) ::
              NameToValue(name) == Table[k].value as int
  {
    var i := NameIndex(name, 0);
    forall k | 0 <= k < |Table| && EqualsIgnoreCase(name, Table[k].name)
      ensures NameToValue(name) == Table[k].value as int
    {
      assert i <= k;
      if i < k {
        EqualsIgnoreCaseTrans(name, Table[i].name, Table[k].name);
        TableNamesDistinct(i, k);
      }
    }
  }

  /** Only lower-case table names: a name is known exactly when its C-locale lower-casing is one of them. */
  lemma NameToValueLowercase(name: CString, k: nat)
    requires k < |Table|
    ensures EqualsIgnoreCase(name, Table[k].name) <==>
            |name| == |Table[k].name| && forall i | 0 <= i < |name| :: Lower(name[i]) == Table[k].name[i]
  {
  }

  /**
   dec_val_to_name gives each of the five values its table name and NULL to
   every other value.
   */
  lemma ValueToNameMeaning(v: Decision)
    ensures ValueToName(v) == None <==> v !in {NO_OPINION, ALLOW, DENY, ALLOW_AUDIT, DENY_AUDIT}
    ensures forall k | 0 <= k < |Table| && Table[k].value == v :: ValueToName(v) == Some(Table[k].name)
  {
  }

  /** Round trip from values: for every table value v, dec_name_to_val(dec_val_to_name(v)) == v. */
  lemma ValueNameRoundTrip(v: Decision)
    requires ValueToName(v).Some?
    ensures NameToValue(ValueToName(v).value) == v as int
  {
    var k := ValueIndex(v, 0);
    NameToValueMeaning(Table[k].name);
  }

  /** Each table value converts to int and back unchanged, and is found at its own row (the values are distinct). */
  lemma TableValueAt(k: nat)
    requires k < |Table|
    ensures (Table[k].value as int) as Decision == Table[k].value
    ensures ValueIndex(Table[k].value, 0) == k
  {
  }

  /**
   Round trip from names: a known name maps to a value whose table name is
   that name up to case.
   */
  lemma NameValueRoundTrip(name: CString)
    requires NameToValue(name) != -1
    ensures 0 <= NameToValue(name) < 0x1_0000_0000
    ensures var back := ValueToName(NameToValue(name) as Decision);
            back.Some? && EqualsIgnoreCase(name, back.value)
  {
    var k := NameIndex(name, 0);
    TableValueAt(k);
  }
}
