/** The levels of the audit rules at run time: internal/config/runtime.go with the layering of
    Config.Policy (internal/config/config.go). A level can be set under a rule's own code or under
    the name an older tool knows it by. */
module Runtime {
  import opened Text
  import opened Catalog

  // ---------------------------------------------------------------- names of rules

  datatype Section = AlterTable | CreateTable | DDLSafety | Impact | DMLSafety

  /** A rule that has a legacy name. */
  datatype RuleId = Rule(section: Section, number: nat)

  /** legacyLevelRule, by section: rule n + 1 has the legacy name at n, or none where it is empty. */
  function Names(s: Section): (r: seq<string>)
    ensures |r| < 1000
  {
    match s
    case AlterTable => [
      "er_alter_table_once", "er_cant_change_column", "er_cant_change_column_position", "er_change_column_type"]
    case CreateTable => [
      "er_table_must_have_pk", "er_table_must_have_comment", "er_column_have_no_comment", "", "", "", "", "",
      "er_invalid_ident", "er_ident_use_keyword", "er_index_name_idx_prefix", "er_index_name_uniq_prefix",
      "er_too_many_key_parts", "er_pk_too_many_parts", "er_too_many_keys", "er_pk_cols_not_int",
      "er_set_data_type_int_bigint", "er_autoinc_unsigned", "er_auto_incr_id_warning", "er_inc_init_err",
      "er_must_have_columns", "er_table_charset_must_null", "er_table_charset_must_utf8", "er_charset_on_column",
      "er_blob_cant_have_default", "er_invalid_data_type", "er_json_type_support", "er_not_allowed_nullable",
      "er_text_not_nullable_error", "er_with_default_add_column", "er_datetime_default", "er_char_to_varchar_len",
      "er_too_much_auto_timestamp_cols", "", "er_incorrect_datetime_value", "er_use_enum", "er_use_text_or_blob"]
    case DDLSafety => [
      "", "", "", "er_foreign_key", "er_partition_not_allowed", "er_cant_set_charset", "er_cant_set_collation",
      "er_cant_set_engine", "er_view_support"]
    case Impact => [
      "", "er_change_too_much_rows", "er_insert_too_much_rows"]
    case DMLSafety => [
      "er_no_where_condition", "", "er_with_limit_condition", "er_with_orderby_condition",
      "er_join_no_on_condition", "er_select_only_star", "er_with_insert_field", "er_ordery_by_rand",
      "er_wrong_and_expr", "er_implicit_type_conversion"]
  }

  function SectionText(s: Section): string {
    match s
    case AlterTable => "DDL-AT"
    case CreateTable => "DDL-CT"
    case DDLSafety => "DDL-SF"
    case Impact => "DML-IM"
    case DMLSafety => "DML-SF"
  }

  /** The code of a rule, such as GIP-DDL-CT-001. */
  function Code(r: RuleId): string {
    "GIP-" + SectionText(r.section) + "-" + [Digit(r.number / 100 % 10), Digit(r.number / 10 % 10),
                                             Digit(r.number % 10)]
  }

  /** Where the name stands in the list, or the length of the list. */
  function Position(names: seq<string>, name: string): (i: nat)
    ensures i <= |names| && (i < |names| ==> names[i] == name)
    ensures i == |names| ==> name !in names
  {
    if names == [] || names[0] == name then 0 else 1 + Position(names[1..], name)
  }

  /** The first section that lists the name, and the name's place in it. */
  function InSections(names: Section -> seq<string>, sections: seq<Section>, name: string): (r: Option<RuleId>)
    ensures r.Some? ==>
        0 < r.value.number <= |names(r.value.section)| && names(r.value.section)[r.value.number - 1] == name
  {
    if sections == [] then None
    else
      var i := Position(names(sections[0]), name);
      if i < |names(sections[0])| then Some(Rule(sections[0], i + 1)) else InSections(names, sections[1..], name)
  }

  function LegacyRule(name: string): (r: Option<RuleId>) {
    if name == "" then None else InSections(Names, [AlterTable, CreateTable, DDLSafety, Impact, DMLSafety], name)
  }

  function LegacyCode(name: string): Option<string> {
    match LegacyRule(name)
    case Some(r) => Some(Code(r))
    case None => None
  }

  lemma DigitInjective(a: nat, b: nat)
    requires a < 10 && b < 10 && Digit(a) == Digit(b)
    ensures a == b
  {
  }

  lemma ThreeDigits(n: nat)
    requires n < 1000
    ensures n == n / 100 % 10 * 100 + n / 10 % 10 * 10 + n % 10
  {
    assert n / 100 < 10 && n / 100 == n / 10 / 10;
  }

  lemma CodeInjective(a: RuleId, b: RuleId)
    requires a.number < 1000 && b.number < 1000 && Code(a) == Code(b)
    ensures a == b
  {
    var x, y := Code(a), Code(b);
    assert |SectionText(a.section)| == 6 && |SectionText(b.section)| == 6;
    assert x[11] == y[11] && x[12] == y[12] && x[13] == y[13];
    DigitInjective(a.number / 100 % 10, b.number / 100 % 10);
    DigitInjective(a.number / 10 % 10, b.number / 10 % 10);
    DigitInjective(a.number % 10, b.number % 10);
    ThreeDigits(a.number);
    ThreeDigits(b.number);
    SectionInjective(x, a.section, b.section);
  }

  lemma SectionInjective(x: string, a: Section, b: Section)
    requires |x| == 14 && x[4..10] == SectionText(a) && x[4..10] == SectionText(b)
    ensures a == b
  {
    var t := x[4..10];
    assert t[1] == SectionText(a)[1] && t[4] == SectionText(a)[4] && t[5] == SectionText(a)[5];
    assert t[1] == SectionText(b)[1] && t[4] == SectionText(b)[4] && t[5] == SectionText(b)[5];
  }

  /** No two legacy names lead to the same rule, and only rules with GIP codes have legacy names. */
  lemma LegacyIsInjective(a: string, b: string)
    requires LegacyCode(a).Some? && LegacyCode(a) == LegacyCode(b)
    ensures a == b
  {
    CodeInjective(LegacyRule(a).value, LegacyRule(b).value);
  }

  // ---------------------------------------------------------------- settings

  function UpperChar(c: char): char { if 'a' <= c <= 'z' then 'A' + (c - 'a') else c }

  function Upper(s: string): string { seq(|s|, i requires 0 <= i < |s| => UpperChar(s[i])) }

  function CanonicalAlias(name: string): string {
    match name
    case "er_column_must_have_comment" => "er_column_have_no_comment"
    case "er_insert_field" => "er_with_insert_field"
    case "er_sql_no_where" => "er_no_where_condition"
    case _ => name
  }

  const Warning := 1

  /** The default level of every registered rule, and the code behind each legacy name. */
  datatype Catalogue = Catalogue(defaults: map<string, int>, legacy: map<string, string>)

  ghost predicate OneNameEach(legacy: map<string, string>) {
    forall a, b :: a in legacy && b in legacy && legacy[a] == legacy[b] ==> a == b
  }

  /** The legacy names in use have this property. */
  lemma LegacyNamesAreOneEach(legacy: map<string, string>)
    requires forall n :: n in legacy ==> LegacyCode(n) == Some(legacy[n])
    ensures OneNameEach(legacy)
  {
    forall a, b | a in legacy && b in legacy && legacy[a] == legacy[b] ensures a == b {
      LegacyIsInjective(a, b);
    }
  }

  /** The two places where levels are kept: IncLevel by legacy name, and Rules by code. */
  datatype Settings = Settings(inc: map<string, int>, rules: map<string, int>)

  ghost predicate Sound(catalogue: Catalogue, s: Settings) {
    OneNameEach(catalogue.legacy) && s.inc.Keys == catalogue.legacy.Keys
    && (forall n :: n in s.inc ==> catalogue.legacy[n] in catalogue.defaults)
    && (forall c :: c in s.rules ==> c in catalogue.defaults)
  }

  datatype Target = ByCode(code: string) | ByName(name: string) | NoRule

  /** What a name given to SetLevel stands for. */
  function Addressed(catalogue: Catalogue, name: string): Target {
    var code := Upper(Trim(name));
    if "GIP-" <= code then if code in catalogue.defaults then ByCode(code) else NoRule
    else
      var n := CanonicalAlias(Fold(Trim(name)));
      if n in catalogue.legacy then ByName(n) else NoRule
  }

  /** The rule whose level a call sets, if it succeeds. */
  function RuleSet(catalogue: Catalogue, name: string, value: int): Option<string> {
    if value < 0 || value > 2 then None
    else match Addressed(catalogue, name)
      case ByCode(code) => Some(code)
      case ByName(n) => Some(catalogue.legacy[n])
      case NoRule => None
  }

  /** SetLevel as a function. A legacy name goes to Rules where that has an entry, and to IncLevel otherwise. */
  function WithLevel(catalogue: Catalogue, s: Settings, name: string, value: int): Settings {
    if value < 0 || value > 2 then s
    else match Addressed(catalogue, name)
      case ByCode(code) => s.(rules := s.rules[code := value])
      case ByName(n) =>
        var code := catalogue.legacy[n];
        if code in s.rules then s.(rules := s.rules[code := value]) else s.(inc := s.inc[n := value])
      case NoRule => s
  }

  lemma UpperOf(text: string, code: string)
    requires EqualFold(text, code) && forall i :: 0 <= i < |code| ==> !('a' <= code[i] <= 'z')
    ensures Upper(text) == code
  {
    EqualFoldIsByLetter(text, code);
    forall i | 0 <= i < |text| ensures UpperChar(text[i]) == code[i] {
      assert SameLetter(text[i], code[i]);
    }
  }

  lemma FoldOf(text: string, name: string)
    requires EqualFold(text, name) && forall i :: 0 <= i < |name| ==> !('A' <= name[i] <= 'Z')
    ensures Fold(text) == name
  {
    EqualFoldIsByLetter(text, name);
    forall i | 0 <= i < |text| ensures LowerChar(text[i]) == name[i] {
      assert SameLetter(text[i], name[i]);
    }
  }

  lemma FirstLetter(text: string, name: string)
    requires EqualFold(text, name) && name != []
    ensures text != [] && ("GIP-" <= Upper(text) ==> SameLetter('G', name[0]))
  {
    EqualFoldIsByLetter(text, name);
    assert SameLetter(text[0], name[0]);
    assert "GIP-"[0] == 'G';
    if "GIP-" <= Upper(text) {
      assert Upper(text)[0] == UpperChar(text[0]) == 'G';
    }
  }

  /** SetLevel finds a rule by its code, in large or small letters and with blanks around it. */
  lemma FoundByCode(catalogue: Catalogue, code: string, pre: string, text: string, post: string, value: int)
    requires code in catalogue.defaults && "GIP-" <= code && forall i :: 0 <= i < |code| ==> !('a' <= code[i] <= 'z')
    requires Blank(pre) && Blank(post) && Trimmed(text) && EqualFold(text, code)
    ensures RuleSet(catalogue, pre + text + post, value) == if 0 <= value <= 2 then Some(code) else None
  {
    TrimUnique(pre, text, post);
    UpperOf(text, code);
  }

  /** It finds a rule by its legacy name. */
  lemma FoundByName(catalogue: Catalogue, name: string, pre: string, text: string, post: string, value: int)
    requires name in catalogue.legacy && name != [] && name[0] == 'e'
    requires forall i :: 0 <= i < |name| ==> !('A' <= name[i] <= 'Z')
    requires name != "er_column_must_have_comment" && name != "er_insert_field" && name != "er_sql_no_where"
    requires Blank(pre) && Blank(post) && Trimmed(text) && EqualFold(text, name)
    ensures RuleSet(catalogue, pre + text + post, value)
         == if 0 <= value <= 2 then Some(catalogue.legacy[name]) else None
  {
    TrimUnique(pre, text, post);
    SaidAs(text, name, name);
  }

  /** The three older names of rules, and the legacy names they stand for. */
  predicate OlderName(said: string, name: string) {
    (said == "er_column_must_have_comment" && name == "er_column_have_no_comment")
    || (said == "er_insert_field" && name == "er_with_insert_field")
    || (said == "er_sql_no_where" && name == "er_no_where_condition")
  }

  lemma OlderIsSmall(said: string, name: string)
    requires OlderName(said, name)
    ensures said != [] && said[0] == 'e' && CanonicalAlias(said) == name
    ensures forall i :: 0 <= i < |said| ==> !('A' <= said[i] <= 'Z')
  {
  }

  /** And by one of these. */
  lemma FoundByOlderName(catalogue: Catalogue, said: string, name: string, pre: string, text: string, post: string,
                         value: int)
    requires OlderName(said, name) && name in catalogue.legacy
    requires Blank(pre) && Blank(post) && Trimmed(text) && EqualFold(text, said)
    ensures RuleSet(catalogue, pre + text + post, value)
         == if 0 <= value <= 2 then Some(catalogue.legacy[name]) else None
  {
    TrimUnique(pre, text, post);
    OlderIsSmall(said, name);
    SaidAs(text, said, name);
  }

  lemma SaidAs(text: string, said: string, name: string)
    requires EqualFold(text, said) && said != [] && said[0] == 'e' && CanonicalAlias(said) == name
    requires forall i :: 0 <= i < |said| ==> !('A' <= said[i] <= 'Z')
    ensures !("GIP-" <= Upper(text)) && CanonicalAlias(Fold(text)) == name
  {
    FoldOf(text, said);
    FirstLetter(text, said);
  }

  ghost predicate Named(catalogue: Catalogue, s: Settings, code: string) {
    exists n :: n in s.inc && n in catalogue.legacy && catalogue.legacy[n] == code
  }

  ghost function NameFor(catalogue: Catalogue, s: Settings, code: string): string
    requires Named(catalogue, s, code)
  {
    var n :| n in s.inc && n in catalogue.legacy && catalogue.legacy[n] == code;
    n
  }

  /** The level of a rule under Config.Policy: Rules over IncLevel over the default. */
  ghost function Effective(catalogue: Catalogue, s: Settings, code: string): int {
    if code in s.rules then s.rules[code]
    else if Named(catalogue, s, code) then s.inc[NameFor(catalogue, s, code)]
    else if code in catalogue.defaults then catalogue.defaults[code]
    else Warning
  }

  lemma NameForIs(catalogue: Catalogue, s: Settings, n: string)
    requires OneNameEach(catalogue.legacy) && n in s.inc && n in catalogue.legacy
    ensures Named(catalogue, s, catalogue.legacy[n]) && NameFor(catalogue, s, catalogue.legacy[n]) == n
  {
  }

  lemma WithLevelSound(catalogue: Catalogue, s: Settings, name: string, value: int)
    requires Sound(catalogue, s)
    ensures Sound(catalogue, WithLevel(catalogue, s, name, value))
  {
  }

  /** A call sets the effective level of one rule and leaves every other as it was. */
  lemma OneLevelChanges(catalogue: Catalogue, s: Settings, name: string, value: int, code: string)
    requires Sound(catalogue, s)
    ensures Effective(catalogue, WithLevel(catalogue, s, name, value), code)
         == if RuleSet(catalogue, name, value) == Some(code) then value else Effective(catalogue, s, code)
  {
    var t := WithLevel(catalogue, s, name, value);
    if Named(catalogue, s, code) {
      NameForIs(catalogue, s, NameFor(catalogue, s, code));
      assert NameFor(catalogue, s, code) in t.inc;
      NameForIs(catalogue, t, NameFor(catalogue, s, code));
    }
    if Named(catalogue, t, code) {
      NameForIs(catalogue, t, NameFor(catalogue, t, code));
      NameForIs(catalogue, s, NameFor(catalogue, t, code));
    }
    if Addressed(catalogue, name).ByName? {
      NameForIs(catalogue, t, Addressed(catalogue, name).name);
    }
  }

  /** The levels of the names outside `todo` have been laid over the defaults. */
  ghost predicate Laid(catalogue: Catalogue, s: Settings, at: map<string, int>, todo: set<string>) {
    s.inc.Keys == catalogue.legacy.Keys && at.Keys == catalogue.defaults.Keys
    && (forall n :: n in s.inc && n !in todo ==> catalogue.legacy[n] in at && at[catalogue.legacy[n]] == s.inc[n])
    && (forall c :: c in at ==> at[c] == catalogue.defaults[c] || Named(catalogue, s, c))
  }

  /** No other name is disturbed, because no two names lead to the same rule. */
  lemma LayOne(catalogue: Catalogue, s: Settings, at: map<string, int>, todo: set<string>, n: string)
    requires Sound(catalogue, s) && Laid(catalogue, s, at, todo) && n in todo && n in s.inc
    ensures Laid(catalogue, s, at[catalogue.legacy[n] := s.inc[n]], todo - {n})
  {
    NameForIs(catalogue, s, n);
  }

  lemma AllLaid(catalogue: Catalogue, s: Settings, at: map<string, int>)
    requires Sound(catalogue, s) && Laid(catalogue, s, at, {})
    ensures forall c :: c in at && c !in s.rules ==> at[c] == Effective(catalogue, s, c)
    ensures forall c :: c !in at && c !in s.rules ==> Effective(catalogue, s, c) == Warning
  {
    forall c | c in at && c !in s.rules ensures at[c] == Effective(catalogue, s, c) {
      if Named(catalogue, s, c) {
        NameForIs(catalogue, s, NameFor(catalogue, s, c));
      }
    }
  }

  // ---------------------------------------------------------------- runs of calls

  datatype Call = SetLevelCall(name: string, value: int) | SetVariableCall(variable: string, text: string)

  function AfterCalls(catalogue: Catalogue, s: Settings, calls: seq<Call>): Settings {
    if calls == [] then s
    else
      var before := AfterCalls(catalogue, s, calls[..|calls| - 1]);
      match calls[|calls| - 1]
      case SetLevelCall(name, value) => WithLevel(catalogue, before, name, value)
      case SetVariableCall(_, _) => before
  }

  /** The call sets the level of the rule with this code, under whichever of its names. */
  predicate Sets(catalogue: Catalogue, c: Call, code: string) {
    c.SetLevelCall? && RuleSet(catalogue, c.name, c.value) == Some(code)
  }

  /** The last call that sets the level of the rule, or -1. */
  function LastSet(catalogue: Catalogue, calls: seq<Call>, code: string): (i: int)
    ensures -1 <= i < |calls| && (i >= 0 ==> Sets(catalogue, calls[i], code))
    ensures forall j :: i < j < |calls| ==> !Sets(catalogue, calls[j], code)
  {
    if calls == [] then -1
    else if Sets(catalogue, calls[|calls| - 1], code) then |calls| - 1
    else LastSet(catalogue, calls[..|calls| - 1], code)
  }

  /** The last write wins, whichever of the two naming schemes each call used. */
  lemma {:induction false} LastWriteWins(catalogue: Catalogue, s: Settings, calls: seq<Call>, code: string)
    requires Sound(catalogue, s)
    ensures Sound(catalogue, AfterCalls(catalogue, s, calls))
    ensures Effective(catalogue, AfterCalls(catalogue, s, calls), code)
         == var i := LastSet(catalogue, calls, code);
            if i >= 0 then calls[i].value else Effective(catalogue, s, code)
  {
    if calls != [] {
      var init, c := calls[..|calls| - 1], calls[|calls| - 1];
      LastWriteWins(catalogue, s, init, code);
      if c.SetLevelCall? {
        var before := AfterCalls(catalogue, s, init);
        WithLevelSound(catalogue, before, c.name, c.value);
        OneLevelChanges(catalogue, before, c.name, c.value, code);
      }
    }
  }

  // ---------------------------------------------------------------- the object

  /** setIncByTag knows one old variable under another name. */
  function VariableName(name: string): string {
    var n := Fold(Trim(name));
    if n == "er_sql_no_where" then "check_dml_where" else n
  }

  /** A variable is found by its name in any letter case and with blanks around it, and the one by an older name too. */
  lemma VariableFound(name: string, pre: string, text: string, post: string)
    requires forall i :: 0 <= i < |name| ==> !('A' <= name[i] <= 'Z')
    requires Blank(pre) && Blank(post) && Trimmed(text) && EqualFold(text, name)
    ensures VariableName(pre + text + post) == if name == "er_sql_no_where" then "check_dml_where" else name
  {
    TrimUnique(pre, text, post);
    FoldOf(text, name);
  }

  /** A Go map from rule codes to levels, which is shared when it is copied. */
  class Levels {
    var at: map<string, int>

    constructor (at: map<string, int>)
      ensures this.at == at
    {
      this.at := at;
    }

    /** Policy.Level */
    function Level(catalogue: Catalogue, code: string): int
      reads this
    {
      if code in at then at[code] else if code in catalogue.defaults then catalogue.defaults[code] else Warning
    }
  }

  class Runtime {
    const catalogue: Catalogue
    var inc: map<string, int>
    var rules: Levels?
    var variables: map<string, string>
    /** The maps of the policies that have been handed out. */
    ghost var issued: set<Levels>

    ghost function Current(): Settings
      reads this, rules
    {
      Settings(inc, if rules == null then map[] else rules.at)
    }

    ghost predicate Valid()
      reads this, rules
    {
      Sound(catalogue, Current()) && rules !in issued
    }

    constructor (catalogue: Catalogue, inc: map<string, int>, rules: Levels?, variables: map<string, string>)
      requires Sound(catalogue, Settings(inc, if rules == null then map[] else rules.at))
      ensures Valid() && Current() == Settings(inc, if rules == null then map[] else rules.at)
      ensures this.catalogue == catalogue && this.variables == variables && issued == {}
    {
      this.catalogue, this.inc, this.rules, this.variables, issued := catalogue, inc, rules, variables, {};
    }

    /** Config.Policy: the levels of the legacy names are laid down in any order, those of Rules on top. */
    method Policy() returns (p: Levels)
      requires Valid()
      modifies this`issued
      ensures Valid() && fresh(p) && issued == old(issued) + {p}
      ensures forall code :: p.Level(catalogue, code) == Effective(catalogue, Current(), code)
    {
      var at := catalogue.defaults;
      var todo := inc.Keys;
      while todo != {}
        invariant todo <= inc.Keys && issued == old(issued) && Laid(catalogue, Current(), at, todo)
        decreases todo
      {
        var n :| n in todo;
        LayOne(catalogue, Current(), at, todo, n);
        at := at[catalogue.legacy[n] := inc[n]];
        todo := todo - {n};
      }
      AllLaid(catalogue, Current(), at);
      if rules != null {
        at := at + rules.at;
      }
      p := new Levels(at);
      issued := issued + {p};
    }

    /** Levels: what is in effect for each legacy name. */
    method LegacyLevels() returns (items: map<string, int>)
      requires Valid()
      modifies this`issued
      ensures Valid() && items.Keys == inc.Keys
      ensures forall n :: n in items ==> items[n] == Effective(catalogue, Current(), catalogue.legacy[n])
    {
      var policy := Policy();
      items := map n | n in inc :: policy.Level(catalogue, catalogue.legacy[n]);
    }

    method SetLevel(name: string, value: int) returns (ok: bool)
      requires Valid()
      modifies this, rules
      ensures Valid() && issued == old(issued) && variables == old(variables) && (rules == old(rules) || fresh(rules))
      ensures ok == RuleSet(catalogue, name, value).Some?
      ensures Current() == WithLevel(catalogue, old(Current()), name, value)
      ensures forall p :: p in issued ==> unchanged(p)
    {
      ghost var before := Current();
      WithLevelSound(catalogue, before, name, value);
      if value < 0 || value > 2 {
        return false;
      }
      match Addressed(catalogue, name) {
        case ByCode(code) =>
          if rules == null {
            rules := new Levels(map[]);
          }
          rules.at := rules.at[code := value];
          ok := true;
        case ByName(n) =>
          var code := catalogue.legacy[n];
          if rules != null && code in rules.at {
            rules.at := rules.at[code := value];
          } else {
            inc := inc[n := value];
          }
          ok := true;
        case NoRule => ok := false;
      }
    }

    /** SetVariable works on a copy that is installed when it is valid. Levels are not variables. */
    method SetVariable(name: string, value: string) returns (ok: bool)
      requires Valid()
      modifies this`variables
      ensures Valid() && Current() == old(Current()) && variables.Keys == old(variables.Keys)
      ensures ok ==> VariableName(name) in variables
      ensures !ok ==> variables == old(variables)
      ensures forall n :: n in variables && n != VariableName(name) ==> variables[n] == old(variables[n])
    {
      var n := VariableName(name);
      var candidate := variables;
      if n !in candidate {
        return false;
      }
      candidate := candidate[n := value];
      var valid: bool := *;
      if valid {
        variables := candidate;
      }
      return valid;
    }
  }
}
