/** Dependency lists: parsing, checking, and what installs keep (pkg/kratos-deps.c). */
module DepList {
  import opened Bytes
  import opened CStrings
  import opened DepsVersion

  const SEPARATORS: bytes := [0x2C, 0x3B]
  const MAX_RULES := 32
  const COPY := 1023
  const NAME := 63
  const VERSION := 31

  datatype Rule = Rule(name: bytes, op: Op, version: bytes)

  /* ---- Text pieces ---- */

  function TrimLeft(s: bytes): bytes
  {
    if s != [] && IsSpace(s[0]) then TrimLeft(s[1..]) else s
  }

  function TrimRight(s: bytes): bytes
  {
    if s != [] && IsSpace(s[|s| - 1]) then TrimRight(s[..|s| - 1]) else s
  }

  function Trim(s: bytes): bytes
  {
    TrimRight(TrimLeft(s))
  }

  /* ---- One rule ---- */

  // The operators in the order the parser looks for them.
  const OPERATORS: seq<(bytes, Op)> := [
    ([0x3E, 0x3D], Ge), ([0x3C, 0x3D], Le), ([0x21, 0x3D], Ne), ([0x3D, 0x3D], Eq),
    ([0x3D], Eq), ([0x3E], Gt), ([0x3C], Lt)
  ]

  datatype Hit = Hit(at: nat, width: nat, op: Op)

  function FindOperator(s: bytes, from: nat): (r: Option<Hit>)
    requires from <= |OPERATORS|
    ensures r.Some? ==> r.value.at + r.value.width <= |s|
    decreases |OPERATORS| - from
  {
    if from == |OPERATORS| then None
    else
      var (symbol, op) := OPERATORS[from];
      match Find(s, symbol)
      case Some(at) => Some(Hit(at, |symbol|, op))
      case None => FindOperator(s, from + 1)
  }

  function ParseRule(token: bytes): Rule
  {
    match FindOperator(token, 0)
    case None => Rule(Trim(Prefix(token, NAME)), Any, [])
    case Some(h) =>
      Rule(Trim(Prefix(token[..h.at], NAME)), h.op, Trim(Prefix(TrimLeft(token[h.at + h.width..]), VERSION)))
  }

  /* ---- The list ---- */

  function Collect(fields: seq<bytes>, rules: seq<Rule>): seq<Rule>
    decreases |fields|
  {
    if fields == [] || |rules| >= MAX_RULES then rules
    else
      var token := Trim(fields[0]);
      if token == [] then Collect(fields[1..], rules)
      else
        var rule := ParseRule(token);
        Collect(fields[1..], if rule.name == [] then rules else rules + [rule])
  }

  function Parse(text: bytes): seq<Rule>
  {
    Collect(Fields(Prefix(text, COPY), SEPARATORS), [])
  }

  /* ---- The parser's loops ---- */

  method TrimWhitespace(str: bytes) returns (r: bytes)
    ensures r == Trim(str)
  {
    var start := 0;
    while start < |str| && IsSpace(str[start])
      invariant start <= |str| && TrimLeft(str[start..]) == TrimLeft(str)
    {
      start := start + 1;
    }
    var end := |str|;
    ghost var rest := str[start..];
    assert rest == str[start..end];
    while end > start && IsSpace(str[end - 1])
      invariant start <= end <= |str| && TrimRight(str[start..end]) == TrimRight(rest)
    {
      assert str[start..end][..end - start - 1] == str[start..end - 1];
      end := end - 1;
    }
    return str[start..end];
  }

  // kratos_parse_dependencies
  method ParseDependencies(text: bytes) returns (rules: seq<Rule>)
    ensures rules == Parse(text)
    ensures |rules| <= MAX_RULES && forall r | r in rules :: r.name != []
  {
    hide Fields, ParseRule, Trim;
    var copy := Prefix(text, COPY);
    rules := [];
    var token, pos := NextToken(copy, SEPARATORS, 0);
    assert copy[0..] == copy;
    while token != None && |rules| < MAX_RULES
      invariant pos <= |copy| && |rules| <= MAX_RULES
      invariant Parse(text) ==
        Collect(if token == None then [] else [token.value] + Fields(copy[pos..], SEPARATORS), rules)
      invariant forall r | r in rules :: r.name != []
      decreases |copy| - pos, token != None
    {
      ghost var fields := [token.value] + Fields(copy[pos..], SEPARATORS);
      assert fields[1..] == Fields(copy[pos..], SEPARATORS);
      var trimmed := TrimWhitespace(token.value);
      if trimmed != [] {
        var rule := ParseRule(trimmed);
        if rule.name != [] { rules := rules + [rule]; }
      }
      token, pos := NextToken(copy, SEPARATORS, pos);
    }
  }

  /* ---- Printing a list and reading it back ---- */

  predicate IsOperator(c: byte) { c == 0x3E || c == 0x3C || c == 0x3D || c == 0x21 }

  // The blanks of the C locale, and texts without them at the ends.
  predicate IsBlank(c: byte) { c == 0x20 || 0x09 <= c <= 0x0D }

  predicate Blank(s: bytes) { forall c | c in s :: IsBlank(c) }

  predicate Trimmed(s: bytes) { s != [] ==> !IsBlank(s[0]) && !IsBlank(s[|s| - 1]) }

  predicate Plain(s: bytes) { forall c | c in s :: !IsOperator(c) && c != 0x2C && c != 0x3B }

  function Symbol(op: Op, doubled: bool): bytes
    requires op != Any
  {
    match op
    case Ge => [0x3E, 0x3D]
    case Le => [0x3C, 0x3D]
    case Ne => [0x21, 0x3D]
    case Eq => if doubled then [0x3D, 0x3D] else [0x3D]
    case Gt => [0x3E]
    case Lt => [0x3C]
  }

  // A rule together with how it is laid out in the text.
  datatype Entry = Entry(rule: Rule, doubled: bool, lead: bytes, mid: bytes, gap: bytes, tail: bytes, sep: byte)

  predicate Writable(e: Entry)
  {
    var r := e.rule;
    Blank(e.lead) && Blank(e.mid) && Blank(e.gap) && Blank(e.tail) && (e.sep == 0x2C || e.sep == 0x3B) &&
    r.name != [] && Plain(r.name) && Trimmed(r.name) && |r.name| <= 63 &&
    Plain(r.version) && Trimmed(r.version) && |r.version| <= 31 && (r.op == Any ==> r.version == [])
  }

  // What is left of an entry's text once the blanks around it are gone.
  function Core(e: Entry): bytes
  {
    var r := e.rule;
    if r.op == Any then r.name
    else
      r.name + e.mid + Symbol(r.op, e.doubled) + if r.version == [] then [] else e.gap + r.version
  }

  function Text(e: Entry): bytes
  {
    e.lead + Core(e) + (if e.rule.version == [] then e.gap else []) + e.tail
  }

  function Render(entries: seq<Entry>): bytes
  {
    if entries == [] then []
    else if |entries| == 1 then Text(entries[0])
    else Text(entries[0]) + [entries[0].sep] + Render(entries[1..])
  }

  function RulesOf(entries: seq<Entry>): seq<Rule>
  {
    if entries == [] then [] else [entries[0].rule] + RulesOf(entries[1..])
  }

  function Texts(entries: seq<Entry>): seq<bytes>
  {
    if entries == [] then [] else [Text(entries[0])] + Texts(entries[1..])
  }

  // Whatever the blanks, the separators and the spelling of equality, a printed list
  // within the limits parses back to the same rules.
  lemma ParsePrinted(entries: seq<Entry>)
    requires forall e | e in entries :: Writable(e)
    requires |entries| <= 32 && |Render(entries)| <= 1023
    ensures Parse(Render(entries)) == RulesOf(entries)
  {
    hide Writable, Render, Fields, Texts;
    FieldsOfPrinted(entries);
    CollectPrinted(entries, []);
  }

  // And whatever the text, at most 32 rules come out of its first 1023 bytes, each with a name of
  // at most 63 bytes and a version of at most 31.
  lemma ParseBounds(text: bytes)
    ensures |Parse(text)| <= 32 && (|text| > 1023 ==> Parse(text) == Parse(text[..1023]))
    ensures forall r | r in Parse(text) :: 0 < |r.name| <= 63 && |r.version| <= 31
  {
    hide Collect, Fields;
    CollectBounds(Fields(Prefix(text, COPY), SEPARATORS), []);
  }

  lemma {:induction false} CollectBounds(fields: seq<bytes>, rules: seq<Rule>)
    requires |rules| <= 32 && forall r | r in rules :: 0 < |r.name| <= 63 && |r.version| <= 31
    ensures var all := Collect(fields, rules);
      |all| <= 32 && forall r | r in all :: 0 < |r.name| <= 63 && |r.version| <= 31
    decreases |fields|
  {
    hide ParseRule, Trim;
    if fields != [] && |rules| < 32 {
      var token := Trim(fields[0]);
      var rule := ParseRule(token);
      RuleBounds(token);
      CollectBounds(fields[1..], if token == [] || rule.name == [] then rules else rules + [rule]);
    }
  }

  lemma RuleBounds(token: bytes)
    ensures |ParseRule(token).name| <= 63 && |ParseRule(token).version| <= 31
  {
    hide FindOperator, Trim;
    var h := FindOperator(token, 0);
    TrimShortens(Prefix(token, NAME));
    if h.Some? {
      TrimShortens(Prefix(token[..h.value.at], NAME));
      TrimShortens(Prefix(TrimLeft(token[h.value.at + h.value.width..]), VERSION));
    }
  }

  lemma TrimShortens(s: bytes)
    ensures |Trim(s)| <= |s|
  {
    LeftShortens(s);
    RightShortens(TrimLeft(s));
  }

  lemma {:induction false} LeftShortens(s: bytes)
    ensures |TrimLeft(s)| <= |s|
  {
    if s != [] { LeftShortens(s[1..]); }
  }

  lemma {:induction false} RightShortens(s: bytes)
    ensures |TrimRight(s)| <= |s|
  {
    if s != [] { RightShortens(s[..|s| - 1]); }
  }

  lemma {:induction false} CollectPrinted(entries: seq<Entry>, rules: seq<Rule>)
    requires forall e | e in entries :: Writable(e)
    requires |rules| + |entries| <= MAX_RULES
    ensures Collect(Texts(entries), rules) == rules + RulesOf(entries)
  {
    hide Writable, Text, Collect, Texts, RulesOf;
    ListsNext(entries);
    if entries == [] {
      CollectNone(rules);
      assert rules + [] == rules;
    } else {
      var e, rest := entries[0], entries[1..];
      CollectEntry(e, Texts(rest), rules);
      CollectPrinted(rest, rules + [e.rule]);
      assert rules + ([e.rule] + RulesOf(rest)) == rules + [e.rule] + RulesOf(rest);
    }
  }

  lemma ListsNext(entries: seq<Entry>)
    ensures Texts(entries) == if entries == [] then [] else [Text(entries[0])] + Texts(entries[1..])
    ensures RulesOf(entries) == if entries == [] then [] else [entries[0].rule] + RulesOf(entries[1..])
  {
  }

  lemma CollectNone(rules: seq<Rule>)
    ensures Collect([], rules) == rules
  {
  }

  lemma CollectEntry(e: Entry, more: seq<bytes>, rules: seq<Rule>)
    requires Writable(e) && |rules| < MAX_RULES
    ensures Collect([Text(e)] + more, rules) == Collect(more, rules + [e.rule])
  {
    hide Writable, Trim, ParseRule, Text, Core;
    TrimText(e);
    ParseCore(e);
    CoreNotEmpty(e);
    assert ([Text(e)] + more)[1..] == more;
  }

  lemma CoreNotEmpty(e: Entry)
    requires Writable(e)
    ensures e.rule.name != [] && Core(e) != []
  {
  }

  lemma TrimText(e: Entry)
    requires Writable(e)
    ensures Trim(Text(e)) == Core(e)
  {
    var core := Core(e);
    var after := (if e.rule.version == [] then e.gap else []) + e.tail;
    assert Text(e) == e.lead + core + after;
    TrimPadded(e.lead, core, after);
  }

  lemma {:induction false} TrimPadded(a: bytes, s: bytes, b: bytes)
    requires Blank(a) && Trimmed(s) && Blank(b)
    ensures Trim(a + s + b) == s
  {
    SkipBlank(a, s + b);
    assert a + s + b == a + (s + b);
    if s == [] {
      SkipBlank(b, []);
      assert s + b == b + [];
    } else {
      DropBlank(s, b);
    }
  }

  lemma {:induction false} SkipBlank(a: bytes, s: bytes)
    requires Blank(a)
    ensures TrimLeft(a + s) == TrimLeft(s)
  {
    if a == [] {
      assert a + s == s;
    } else {
      assert (a + s)[1..] == a[1..] + s && a[0] in a;
      SkipBlank(a[1..], s);
    }
  }

  lemma {:induction false} DropBlank(s: bytes, b: bytes)
    requires Blank(b) && s != [] && !IsSpace(s[|s| - 1])
    ensures TrimRight(s + b) == s
  {
    if b == [] {
      assert s + b == s;
    } else {
      var n := |b| - 1;
      assert (s + b)[..|s + b| - 1] == s + b[..n] && b[n] in b;
      DropBlank(s, b[..n]);
    }
  }

  lemma ParseCore(e: Entry)
    requires Writable(e)
    ensures ParseRule(Core(e)) == e.rule
  {
    if e.rule.op == Any { ParseName(e); } else { ParseVersioned(e); }
  }

  lemma ParseName(e: Entry)
    requires Writable(e) && e.rule.op == Any
    ensures ParseRule(Core(e)) == e.rule
  {
    hide FindOperator, Trim;
    var name := e.rule.name;
    NoOperator(name, 0);
    assert [] + name + [] == name;
    TrimPadded([], name, []);
  }

  lemma ParseVersioned(e: Entry)
    requires Writable(e) && e.rule.op != Any
    ensures ParseRule(Core(e)) == e.rule
  {
    hide FindOperator, Trim, TrimLeft, Prefix;
    var r := e.rule;
    var left, symbol := r.name + e.mid, Symbol(r.op, e.doubled);
    var right := if r.version == [] then [] else e.gap + r.version;
    SymbolFound(r.op, e.doubled);
    PlainSides(e);
    OperatorShift(left, symbol, right, 0);
    Around(left, symbol, right);
    NameSide(r.name, e.mid);
    RightSide(e.gap, r.version);
    assert Core(e) == left + symbol + right;
  }

  lemma PlainSides(e: Entry)
    requires Writable(e) && e.rule.op != Any
    ensures Plain(e.rule.name + e.mid) && Plain(if e.rule.version == [] then [] else e.gap + e.rule.version)
  {
  }

  lemma Around(a: bytes, b: bytes, c: bytes)
    ensures (a + b + c)[..|a|] == a && (a + b + c)[|a| + |b|..] == c
  {
  }

  lemma NameSide(name: bytes, mid: bytes)
    requires Blank(mid) && Trimmed(name) && |name| <= NAME
    ensures Trim(Prefix(name + mid, NAME)) == name
  {
    var rest := Prefix(name + mid, NAME)[|name|..];
    assert Prefix(name + mid, NAME) == [] + name + rest;
    TrimPadded([], name, rest);
  }

  lemma RightSide(gap: bytes, version: bytes)
    requires Blank(gap) && Trimmed(version) && |version| <= VERSION
    ensures Trim(Prefix(TrimLeft(if version == [] then [] else gap + version), VERSION)) == version
  {
    SkipBlank(gap, version);
    assert [] + version + [] == version;
    TrimPadded([], version, []);
  }

  lemma {:induction false} NoOperator(s: bytes, from: nat)
    requires Plain(s) && from <= |OPERATORS|
    ensures FindOperator(s, from) == None
    decreases |OPERATORS| - from
  {
    if from < |OPERATORS| {
      var pattern := OPERATORS[from].0;
      AreOperators(from);
      match Find(s, pattern) {
        case Some(i) => StartsInside(s, pattern, i);
        case None =>
      }
      NoOperator(s, from + 1);
    }
  }

  lemma StartsInside(s: bytes, pattern: bytes, i: nat)
    requires pattern != [] && At(s, |s|, i, pattern)
    ensures pattern[0] in s && pattern[0] in pattern
  {
    assert s[i..i + |pattern|][0] == s[i];
  }

  lemma AreOperators(k: nat)
    requires k < |OPERATORS|
    ensures 1 <= |OPERATORS[k].0| <= 2 && forall c | c in OPERATORS[k].0 :: IsOperator(c)
  {
  }

  lemma SymbolFound(op: Op, doubled: bool)
    requires op != Any
    ensures FindOperator(Symbol(op, doubled), 0) == Some(Hit(0, |Symbol(op, doubled)|, op))
  {
    hide Find, FindOperator;
    var s := Symbol(op, doubled);
    OperatorStep(s, 0);
    if op != Ge {
      OperatorStep(s, 1);
      if op != Le {
        OperatorStep(s, 2);
        if op != Ne {
          OperatorStep(s, 3);
          if |s| == 1 { OperatorStep(s, 4); OperatorStep(s, 5); OperatorStep(s, 6); }
        }
      }
    }
  }

  lemma OperatorStep(s: bytes, from: nat)
    requires 1 <= |s| <= 2 && from < |OPERATORS|
    ensures FindOperator(s, from) ==
      match FindShort(s, OPERATORS[from].0)
      case Some(at) => Some(Hit(at, |OPERATORS[from].0|, OPERATORS[from].1))
      case None => FindOperator(s, from + 1)
  {
    hide Find, FindShort;
    FindShortIs(s, OPERATORS[from].0);
  }

  function FindShort(s: bytes, p: bytes): Option<nat>
    requires 1 <= |s| <= 2 && 1 <= |p| <= 2
  {
    if |p| == 2 then if s == p then Some(0) else None
    else if s[0] == p[0] then Some(0)
    else if |s| == 2 && s[1] == p[0] then Some(1)
    else None
  }

  lemma FindShortIs(s: bytes, p: bytes)
    requires 1 <= |s| <= 2 && 1 <= |p| <= 2
    ensures Find(s, p) == FindShort(s, p)
  {
    hide Find;
    if |p| == 1 {
      assert p == [p[0]];
      forall i: nat | i <= 2 ensures At(s, |s|, i, p) <==> i < |s| && s[i] == p[0] { AtOne(s, |s|, i, p[0]); }
    } else {
      assert At(s, |s|, 0, p) <==> s == p by { if |s| == 2 { assert s[0..2] == s; } }
    }
  }

  // An operator between operator-free texts is found where it stands.
  lemma {:induction false} OperatorShift(a: bytes, symbol: bytes, b: bytes, from: nat)
    requires Plain(a) && Plain(b) && from <= |OPERATORS|
    ensures FindOperator(a + symbol + b, from) ==
      match FindOperator(symbol, from)
      case None => None
      case Some(h) => Some(Hit(|a| + h.at, h.width, h.op))
    decreases |OPERATORS| - from
  {
    hide Find;
    if from < |OPERATORS| {
      FindShift(a, symbol, b, OPERATORS[from].0);
      OperatorShift(a, symbol, b, from + 1);
    }
  }

  lemma FindShift(a: bytes, symbol: bytes, b: bytes, p: bytes)
    requires Plain(a) && Plain(b) && p != [] && forall c | c in p :: IsOperator(c)
    ensures Find(a + symbol + b, p) ==
      match Find(symbol, p)
      case None => None
      case Some(i) => Some(|a| + i)
  {
    hide Find;
    var s := a + symbol + b;
    match Find(symbol, p) {
      case Some(j) => OnlyThere(a, symbol, b, p, |a| + j);
      case None =>
    }
    match Find(s, p) {
      case Some(i) => OnlyThere(a, symbol, b, p, i);
      case None =>
    }
  }

  lemma OnlyThere(a: bytes, symbol: bytes, b: bytes, p: bytes, i: nat)
    requires Plain(a) && Plain(b) && p != [] && forall c | c in p :: IsOperator(c)
    ensures var s := a + symbol + b; At(s, |s|, i, p) <==> |a| <= i && At(symbol, |symbol|, i - |a|, p)
  {
    var s := a + symbol + b;
    var n := |p|;
    if At(s, |s|, i, p) {
      assert s[i] == p[0] && s[i + n - 1] == p[n - 1] by {
        assert s[i..i + n][0] == s[i] && s[i..i + n][n - 1] == s[i + n - 1];
      }
      assert p[0] in p && p[n - 1] in p;
      forall k | 0 <= k < |s| && !(|a| <= k < |a| + |symbol|) ensures !IsOperator(s[k]) {
        if k < |a| { assert s[k] == a[k]; } else { assert s[k] == b[k - |a| - |symbol|]; }
      }
    }
    if |a| <= i && i + n <= |a| + |symbol| {
      assert s[i..i + n] == symbol[i - |a|..i - |a| + n];
    }
  }

  lemma {:induction false} FieldsOfPrinted(entries: seq<Entry>)
    requires forall e | e in entries :: Writable(e)
    ensures Fields(Render(entries), SEPARATORS) == Texts(entries)
  {
    hide Writable, Fields, Text;
    if entries == [] {
      FieldsOfOne([], SEPARATORS);
    } else {
      var e, rest := entries[0], entries[1..];
      TextIsField(e);
      SeparatorOf(e);
      FieldsOfOne(Text(e), SEPARATORS);
      FieldsJoin(Text(e), e.sep, Render(rest), SEPARATORS);
      FieldsOfPrinted(rest);
    }
  }

  lemma SeparatorOf(e: Entry)
    requires Writable(e)
    ensures e.sep in SEPARATORS
  {
  }

  lemma TextIsField(e: Entry)
    requires Writable(e)
    ensures Text(e) != [] && forall c | c in Text(e) :: c !in SEPARATORS
  {
  }

  /* ---- Checking a list against the installed packages ---- */

  type Versions = map<bytes, bytes>

  // glibc and kpm, which count as present when the database does not hold them.
  predicate IsBase(name: bytes)
  {
    name == [0x67, 0x6C, 0x69, 0x62, 0x63] || name == [0x6B, 0x70, 0x6D]
  }

  predicate Met(db: Versions, rule: Rule)
  {
    if rule.name in db then Satisfies(db[rule.name], rule.op, rule.version) else IsBase(rule.name)
  }

  // A rule on a package that is not installed is met only if it is one of these two.
  lemma AbsentMet(db: Versions, rule: Rule)
    requires rule.name !in db
    ensures Met(db, rule) <==> rule.name == AsciiText("glibc") || rule.name == AsciiText("kpm")
  {
    assert AsciiText("glibc") == [0x67, 0x6C, 0x69, 0x62, 0x63] && AsciiText("kpm") == [0x6B, 0x70, 0x6D];
  }

  predicate Hits(db: Versions, rule: Rule)
  {
    rule.name in db && Satisfies(db[rule.name], rule.op, rule.version)
  }

  // kratos_check_dependencies_satisfied
  method CheckDependenciesSatisfied(rules: seq<Rule>, db: Versions) returns (ok: bool)
    ensures ok <==> forall r | r in rules :: Met(db, r)
  {
    hide Satisfies;
    for i := 0 to |rules|
      invariant forall r | r in rules[..i] :: Met(db, r)
    {
      var rule := rules[i];
      assert rule in rules;
      if rule.name !in db {
        if IsBase(rule.name) { continue; }
        return false;
      }
      if rule.op != Any && !Satisfies(db[rule.name], rule.op, rule.version) {
        return false;
      }
      AnyHolds(db[rule.name], rule.version);
    }
    return true;
  }

  // kratos_check_conflicts
  method CheckConflicts(text: bytes, db: Versions) returns (hit: bool)
    ensures hit <==> exists r :: r in Parse(text) && Hits(db, r)
  {
    hide Satisfies, Parse;
    if text == [] {
      assert Parse(text) == [] by { NothingToParse(); }
      return false;
    }
    var rules := ParseDependencies(text);
    for i := 0 to |rules|
      invariant forall r | r in rules[..i] :: !Hits(db, r)
    {
      var rule := rules[i];
      assert rule in rules;
      AnyHolds(if rule.name in db then db[rule.name] else [], rule.version);
      if rule.name in db && (rule.op == Any || Satisfies(db[rule.name], rule.op, rule.version)) {
        return true;
      }
    }
    return false;
  }

  lemma NothingToParse()
    ensures Parse([]) == []
  {
  }

  lemma AnyHolds(installed: bytes, required: bytes)
    ensures Satisfies(installed, Any, required)
  {
  }

  /* ---- What non-forced installs keep ---- */

  datatype Meta = Meta(name: bytes, version: bytes, depends: bytes, conflicts: bytes)
  type Installed = map<bytes, Meta>

  function VersionsOf(db: Installed): Versions
  {
    map n | n in db :: db[n].version
  }

  // No listed conflict installed and every dependency met.
  ghost predicate Compatible(versions: Versions, m: Meta)
  {
    (forall r | r in Parse(m.conflicts) :: !Hits(versions, r)) &&
    (forall r | r in Parse(m.depends) :: Met(versions, r))
  }

  // The database checks of a non-forced install.
  ghost predicate Admits(db: Installed, m: Meta) { m.name !in db && Compatible(VersionsOf(db), m) }

  ghost function Install(db: Installed, m: Meta): Installed
  {
    if Admits(db, m) then db[m.name := m] else db
  }

  ghost function InstallAll(db: Installed, metas: seq<Meta>): Installed
  {
    if metas == [] then db else Install(InstallAll(db, metas[..|metas| - 1]), metas[|metas| - 1])
  }

  // Every rule of every installed package holds, base packages excepted while absent.
  ghost predicate AllMet(db: Installed)
  {
    forall n, r | n in db && r in Parse(db[n].depends) :: Met(VersionsOf(db), r)
  }

  // Every rule of every installed package on a package outside the base holds, with the
  // package it names installed.
  ghost predicate MetOutsideBase(db: Installed)
  {
    forall n, r | n in db && r in Parse(db[n].depends) && !IsBase(r.name) ::
      r.name in db && Satisfies(db[r.name].version, r.op, r.version)
  }

  // Over every run of non-forced installs from the empty database.
  lemma {:induction false} RunKeepsDependencies(metas: seq<Meta>)
    ensures MetOutsideBase(InstallAll(map[], metas))
  {
    hide MetOutsideBase, Install;
    if metas == [] {
      NothingInstalled();
    } else {
      RunKeepsDependencies(metas[..|metas| - 1]);
      InstallKeepsDependencies(InstallAll(map[], metas[..|metas| - 1]), metas[|metas| - 1]);
    }
  }

  lemma NothingInstalled()
    ensures MetOutsideBase(map[])
  {
  }

  lemma InstallKeepsDependencies(db: Installed, m: Meta)
    requires MetOutsideBase(db)
    ensures MetOutsideBase(Install(db, m))
  {
    hide Parse, Satisfies, IsBase;
    var after := Install(db, m);
    forall n, r | n in after && r in Parse(after[n].depends) && !IsBase(r.name)
      ensures r.name in after && Satisfies(after[r.name].version, r.op, r.version)
    {
      if n in db && after[n] == db[n] { assert r in Parse(db[n].depends); }
      assert (n in db && after[n] == db[n]) || Met(VersionsOf(db), r);
    }
  }

  /* ---- Conflicts ---- */

  // The conflicts of package m name package n at a version it has.
  ghost predicate Against(db: Installed, m: bytes, n: bytes)
  {
    m in db && n in db &&
    exists r :: r in Parse(db[m].conflicts) && r.name == n && Satisfies(db[n].version, r.op, r.version)
  }

  // No package is installed while its own conflicts name an installed one; so two packages that
  // name each other are never both there.
  lemma InstalledIsNotAgainst(db: Installed, m: Meta, n: bytes)
    requires Install(db, m) != db && n in db
    ensures m.name !in db && n != m.name && !Against(Install(db, m), m.name, n)
  {
    hide Parse, Satisfies, IsBase;
    var after := Install(db, m);
    forall r | r in Parse(m.conflicts) && r.name == n ensures !Satisfies(after[n].version, r.op, r.version) {
      assert !Hits(VersionsOf(db), r);
    }
  }

  ghost predicate NoneMutual(db: Installed)
  {
    forall m, n | m in db && n in db && m != n :: !(Against(db, m, n) && Against(db, n, m))
  }

  lemma {:induction false} RunWithoutMutualConflicts(metas: seq<Meta>)
    ensures NoneMutual(InstallAll(map[], metas))
  {
    hide Install, Against;
    if metas != [] {
      var db := InstallAll(map[], metas[..|metas| - 1]);
      RunWithoutMutualConflicts(metas[..|metas| - 1]);
      InstallKeepsNoneMutual(db, metas[|metas| - 1]);
    }
  }

  lemma InstallKeepsNoneMutual(db: Installed, m: Meta)
    requires NoneMutual(db)
    ensures NoneMutual(Install(db, m))
  {
    hide Parse, Satisfies, IsBase, Against, Compatible;
    var after := Install(db, m);
    if after != db {
      forall a, b | a in after && b in after && a != b ensures !(Against(after, a, b) && Against(after, b, a)) {
        if a == m.name {
          InstalledIsNotAgainst(db, m, b);
        } else if b == m.name {
          InstalledIsNotAgainst(db, m, a);
        } else {
          SameAgainst(db, after, a, b);
          SameAgainst(db, after, b, a);
        }
      }
    }
  }

  lemma SameAgainst(db: Installed, after: Installed, a: bytes, b: bytes)
    requires a in db && b in db && a in after && b in after && after[a] == db[a] && after[b] == db[b]
    ensures Against(after, a, b) <==> Against(db, a, b)
  {
  }

  // With the base included, an install keeps all rules met exactly when it does not bring in,
  // late, a base package whose version breaks a rule accepted in its absence.
  lemma InstallKeepsAllMet(db: Installed, m: Meta)
    requires AllMet(db)
    ensures AllMet(Install(db, m)) <==>
      !Admits(db, m) || !IsBase(m.name) ||
      ((forall n, r | n in db && r in Parse(db[n].depends) && r.name == m.name ::
          Satisfies(m.version, r.op, r.version)) &&
       (forall r | r in Parse(m.depends) && r.name == m.name :: Satisfies(m.version, r.op, r.version)))
  {
    hide Parse, Satisfies, IsBase;
    if Admits(db, m) {
      var after := db[m.name := m];
      var kept :=
        (forall n, r | n in db && r in Parse(db[n].depends) && r.name == m.name ::
          Satisfies(m.version, r.op, r.version)) &&
        (forall r | r in Parse(m.depends) && r.name == m.name :: Satisfies(m.version, r.op, r.version));
      if AllMet(after) {
        forall n, r | n in db && r in Parse(db[n].depends) && r.name == m.name
          ensures Satisfies(m.version, r.op, r.version)
        {
          assert n in after && after[n] == db[n];
          assert Met(VersionsOf(after), r);
        }
        forall r | r in Parse(m.depends) && r.name == m.name ensures Satisfies(m.version, r.op, r.version) {
          assert m.name in after && after[m.name] == m;
          assert Met(VersionsOf(after), r);
        }
      }
      if !IsBase(m.name) || kept {
        forall n, r | n in after && r in Parse(after[n].depends) ensures Met(VersionsOf(after), r) {
          assert Met(VersionsOf(db), r) by { if n != m.name { assert n in db; } }
        }
      }
    }
  }

  const GLIBC: bytes := [0x67, 0x6C, 0x69, 0x62, 0x63]

  // "glibc>=2"
  function WantsTwo(): Entry { Entry(Rule(GLIBC, Ge, [0x32]), false, [], [], [], [], 0x2C) }

  lemma WantsTwoParses()
    ensures Parse(Render([WantsTwo()])) == [Rule(GLIBC, Ge, [0x32])]
  {
    hide Parse;
    var e := WantsTwo();
    assert Text(e) == GLIBC + [0x3E, 0x3D] + [0x32];
    ParsePrinted([e]);
  }

  // The base exception is real: a run that installs a package that wants glibc of at least 2
  // and then glibc 1 leaves that package's rule broken.
  lemma LateBaseWitness()
    ensures exists metas: seq<Meta> :: !AllMet(InstallAll(map[], metas))
  {
    hide Parse, Render, VersionCmp;
    var app := Meta([0x61], [0x31], Render([WantsTwo()]), []);
    var base := Meta(GLIBC, [0x31], [], []);
    WantsTwoParses();
    NothingToParse();
    OneBeforeTwo();
    var first: Installed := map[app.name := app];
    var both := first[base.name := base];
    assert Admits(map[], app);
    assert InstallAll(map[], [app]) == first by { assert [app][..0] == []; }
    assert Admits(first, base);
    assert InstallAll(map[], [app, base]) == both by { assert [app, base][..1] == [app]; }
    var rule := Rule(GLIBC, Ge, [0x32]);
    assert both[app.name] == app && rule in Parse(app.depends) && !Met(VersionsOf(both), rule);
  }

  lemma OneBeforeTwo()
    ensures VersionCmp([0x31], [0x32]) < 0
  {
  }
}
