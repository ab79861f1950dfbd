/** The field-validation rule engine: a fixed catalog of rules per field
    name, evaluated one field at a time, and validators for a whole record
    and for each kind of child row. Outcomes are lists of violations, or the
    exception a rule lets escape. */
module Validator {
  import opened Common
  import opened Dates

  /** The machine-readable code of a violation. */
  datatype Code = RequiredCode | FormatCode | RangeCode | EnumCode | RegexCode | CustomCode

  /** The values of the `ValidationType` enum, in declaration order. */
  const ValidationTypeValues: seq<string> := ["required", "format", "range", "enum", "regex", "custom"]

  /** The string a violation carries as its `code`: one of the enum's
      values. */
  function CodeName(c: Code): (r: string)
    ensures r in ValidationTypeValues
  {
    match c
    case RequiredCode => "required"
    case FormatCode => "format"
    case RangeCode => "range"
    case EnumCode => "enum"
    case RegexCode => "regex"
    case CustomCode => "custom"
  }

  /** Different codes carry different strings, so a violation's `code`
      string names its kind. */
  lemma CodeNameInjective(a: Code, b: Code)
    ensures CodeName(a) == CodeName(b) ==> a == b
  {
  }

  datatype ValidationError = ValidationError(field: string, message: string, code: Code)

  /** The exceptions a rule can raise out of `validate_field`. */
  datatype PyException = ValueError | TypeError

  datatype Outcome = Violations(errors: seq<ValidationError>) | Raises(exc: PyException)

  /** The three regular expressions of the catalog. */
  datatype Pattern =
    | PatientIdPattern   // ^P\d{8}$
    | DosagePattern      // ^\d+\.?\d*[a-zA-Z]+$
    | FileNamePattern    // ^[\w\-. ]+$

  /** The one custom check of the catalog. */
  datatype CustomCheck = VisitDateNotInFuture

  /** A rule carries only what its kind needs; every Format rule of the
      catalog uses the format `%Y-%m-%d`. */
  datatype Rule =
    | Required(message: string)
    | Format(message: string)
    | Range(minLength: Option<int>, maxLength: Option<int>, min: Option<int>, max: Option<int>, message: string)
    | Enum(values: seq<string>, message: string)
    | Regex(pattern: Pattern, message: string)
    | Custom(check: CustomCheck, message: string)

  const RecordTypeValues: seq<string> := ["门诊", "住院", "急诊", "体检"]
  const OperationLevelValues: seq<string> := ["一级", "二级", "三级", "四级"]
  const FileTypeValues: seq<string> := ["application/pdf", "image/jpeg", "image/png", "application/msword",
    "application/vnd.openxmlformats-officedocument.wordprocessingml.document"]
  const MaxFileSize: int := 100 * 1024 * 1024

  /** The date format message shared by every date field. */
  const DateFormatMessage: string := "日期格式不正确(YYYY-MM-DD)"

  /** The registered rules, in evaluation order, of each field name. */
  const FieldRules: map<string, seq<Rule>> := map[
    "patient_id" := [Required("患者ID不能为空"), Regex(PatientIdPattern, "患者ID格式不正确(P+8位数字)")],
    "record_type" := [Required("病历类型不能为空"), Enum(RecordTypeValues, "无效的病历类型")],
    "visit_date" := [Required("就诊日期不能为空"), Format(DateFormatMessage),
                     Custom(VisitDateNotInFuture, "就诊日期不能晚于今天")],
    "department" := [Required("科室不能为空")],
    "doctor" := [Required("医生不能为空")],
    "chief_complaint" := [Required("主诉不能为空"), Range(Some(2), Some(500), None, None, "主诉长度必须在2-500字之间")],
    "present_illness" := [Required("现病史不能为空"), Range(Some(10), Some(2000), None, None, "现病史长度必须在10-2000字之间")],
    "diagnosis" := [Required("诊断不能为空")],
    "exam_type" := [Required("检查类型不能为空")],
    "exam_date" := [Required("检查日期不能为空"), Format(DateFormatMessage)],
    "exam_result" := [Required("检查结果不能为空")],
    "medication_name" := [Required("药品名称不能为空")],
    "dosage" := [Required("用药剂量不能为空"), Regex(DosagePattern, "剂量格式不正确(如: 0.3g)")],
    "frequency" := [Required("用药频次不能为空")],
    "duration" := [Required("用药天数不能为空")],
    "operation_name" := [Required("手术名称不能为空")],
    "operation_date" := [Required("手术日期不能为空"), Format(DateFormatMessage)],
    "surgeon" := [Required("主刀医生不能为空")],
    "operation_level" := [Required("手术等级不能为空"), Enum(OperationLevelValues, "无效的手术等级")],
    "file_name" := [Required("文件名不能为空"), Regex(FileNamePattern, "文件名包含非法字符")],
    "file_type" := [Required("文件类型不能为空"), Enum(FileTypeValues, "不支持的文件类型")],
    "file_size" := [Range(None, None, Some(0), Some(MaxFileSize), "文件大小超过限制(100MB)")]
  ]

  // ---------------------------------------------------------------------
  // Python semantics the rules rely on

  /** Python truthiness of a scalar. */
  predicate Truthy(v: Value) {
    match v
    case Null => false
    case Str(s) => s != ""
    case Int(i) => i != 0
  }

  /** `not value and value != 0`: the Required rule's test. */
  predicate Missing(v: Value) {
    !Truthy(v) && v != Int(0)
  }

  /** The decimal length of an int, with its minus sign. */
  function DecimalLength(i: int): (n: nat)
    ensures n >= 1
    decreases if i < 0 then -i + 1 else i
  {
    if i < 0 then 1 + DecimalLength(-i)
    else if i < 10 then 1
    else 1 + DecimalLength(i / 10)
  }

  /** `len(str(value))`. */
  function StrLength(v: Value): nat {
    match v
    case Null => 4  // "None"
    case Str(s) => |s|
    case Int(i) => DecimalLength(i)
  }

  // ---------------------------------------------------------------------
  // The regular expressions, as membership tests. `re.match` anchors at the
  // start; `$` matches at the end or just before one final newline.

  predicate EndsWithNewline(s: string) {
    |s| > 0 && s[|s| - 1] == '\n'
  }

  function Chop(s: string): string
    requires EndsWithNewline(s)
  {
    s[..|s| - 1]
  }

  predicate IsAsciiLetter(c: char) {
    'a' <= c <= 'z' || 'A' <= c <= 'Z'
  }

  /** A regex `\w` character: ASCII letters, digits and `_`, and the CJK
      ideographs (U+3400..U+4DBF, U+4E00..U+9FFF). */
  predicate IsWordChar(c: char) {
    IsAsciiLetter(c) || IsDigit(c) || c == '_'
    || ('㐀' <= c <= '䶿') || ('一' <= c <= '鿿')
  }

  predicate PatientIdBody(s: string) {
    |s| == 9 && s[0] == 'P' && forall i :: 1 <= i < 9 ==> IsDigit(s[i])
  }

  /** The number of leading ASCII digits of `s`. */
  function LeadingDigits(s: string): (n: nat)
    ensures n <= |s|
    ensures forall i :: 0 <= i < n ==> IsDigit(s[i])
    ensures n < |s| ==> !IsDigit(s[n])
  {
    if s != [] && IsDigit(s[0]) then 1 + LeadingDigits(s[1..]) else 0
  }

  /** What follows the number of a dosage: `s` without its leading digits,
      an optional point and the digits after it. */
  function UnitPart(s: string): string {
    var rest := s[LeadingDigits(s)..];
    var afterPoint := if rest != [] && rest[0] == '.' then rest[1..] else rest;
    afterPoint[LeadingDigits(afterPoint)..]
  }

  predicate AllLetters(s: string) {
    forall i :: 0 <= i < |s| ==> IsAsciiLetter(s[i])
  }

  /** `\d+\.?\d*[a-zA-Z]+`: the digits, an optional point with more digits,
      then letters to the end. The groups are disjoint, so reading each
      greedily decides the language. */
  predicate DosageBody(s: string) {
    LeadingDigits(s) > 0 && UnitPart(s) != [] && AllLetters(UnitPart(s))
  }

  predicate FileNameBody(s: string) {
    s != [] && forall i :: 0 <= i < |s| ==> IsWordChar(s[i]) || s[i] == '-' || s[i] == '.' || s[i] == ' '
  }

  predicate Body(p: Pattern, s: string) {
    match p
    case PatientIdPattern => PatientIdBody(s)
    case DosagePattern => DosageBody(s)
    case FileNamePattern => FileNameBody(s)
  }

  /** `re.match(pattern, s)` succeeds. */
  predicate Matches(p: Pattern, s: string) {
    Body(p, s) || (EndsWithNewline(s) && Body(p, Chop(s)))
  }

  // ---------------------------------------------------------------------
  // One rule

  function Violation(message: string, code: Code): ValidationError {
    ValidationError("", message, code)
  }

  /** The bounds of a Range rule, each checked on its own, in the order
      min_length, max_length, min, max. `min` and `max` compare the value
      itself with an int, which raises TypeError for None and for a str. */
  function CheckRange(minLength: Option<int>, maxLength: Option<int>, min: Option<int>, max: Option<int>,
                      message: string, v: Value): (r: Outcome)
    ensures r.Violations? ==> |r.errors| <= 4
  {
    var e1 := if minLength.Some? && StrLength(v) < minLength.value then [Violation(message, RangeCode)] else [];
    var e2 := if maxLength.Some? && StrLength(v) > maxLength.value then [Violation(message, RangeCode)] else [];
    if (min.Some? || max.Some?) && !v.Int? then Raises(TypeError)
    else
      var e3 := if min.Some? && v.i < min.value then [Violation(message, RangeCode)] else [];
      var e4 := if max.Some? && v.i > max.value then [Violation(message, RangeCode)] else [];
      Violations(e1 + e2 + e3 + e4)
  }

  /** The visit-date check: strptime unguarded, so a value that is not a
      date string raises; a date after `today` is a violation. */
  function CheckVisitDate(v: Value, today: Date): (r: Outcome)
  {
    if !v.Str? then Raises(TypeError)
    else match ParseYmd(v.s)
      case None => Raises(ValueError)
      case Some(d) =>
        Violations(if After(d, today) then [Violation("就诊日期不能晚于今天", CustomCode)] else [])
  }

  /** What one rule contributes for `v`, before the field name is stamped. */
  function ApplyRule(rule: Rule, v: Value, today: Date): (r: Outcome)
  {
    match rule
    case Required(message) =>
      Violations(if Missing(v) then [Violation(message, RequiredCode)] else [])
    case Format(message) =>
      if !Truthy(v) then Violations([])
      else if !v.Str? then Raises(TypeError)
      else Violations(if ParseYmd(v.s).Some? then [] else [Violation(message, FormatCode)])
    case Range(minLength, maxLength, min, max, message) =>
      CheckRange(minLength, maxLength, min, max, message, v)
    case Enum(values, message) =>
      Violations(if v.Str? && v.s in values then [] else [Violation(message, EnumCode)])
    case Regex(pattern, message) =>
      if !v.Str? then Raises(TypeError)
      else Violations(if Matches(pattern, v.s) then [] else [Violation(message, RegexCode)])
    case Custom(VisitDateNotInFuture, _) =>
      CheckVisitDate(v, today)
  }

  /** The rule loop of `validate_field`, continuing from the violations `acc`
      found so far: a raising rule ends it, and so does a Required rule once
      any violation has been found. */
  function RunRules(rules: seq<Rule>, v: Value, today: Date, acc: seq<ValidationError>): Outcome
    decreases |rules|
  {
    if rules == [] then Violations(acc)
    else match ApplyRule(rules[0], v, today)
      case Raises(e) => Raises(e)
      case Violations(es) =>
        if rules[0].Required? && acc + es != [] then Violations(acc + es)
        else RunRules(rules[1..], v, today, acc + es)
  }

  /** Every violation, with its field set to `field`. */
  function StampAll(field: string, es: seq<ValidationError>): (r: seq<ValidationError>)
    ensures |r| == |es|
    ensures forall i :: 0 <= i < |es| ==> r[i] == es[i].(field := field)
  {
    seq(|es|, i requires 0 <= i < |es| => es[i].(field := field))
  }

  /** What `validate_field(field, v)` returns or raises. */
  function FieldOutcome(field: string, v: Value, today: Date): Outcome
  {
    if field !in FieldRules then Violations([])
    else match RunRules(FieldRules[field], v, today, [])
      case Raises(e) => Raises(e)
      case Violations(es) => Violations(StampAll(field, es))
  }

  // ---------------------------------------------------------------------
  // validate_field and the validators built on it

  /** The rule loop over `rules`, before the field name is stamped. */
  method RunFieldRules(rules: seq<Rule>, value: Value, today: Date) returns (r: Outcome)
    ensures r == RunRules(rules, value, today, [])
  {
    var errors: seq<ValidationError> := [];
    var i := 0;
    while i < |rules|
      invariant 0 <= i <= |rules|
      invariant RunRules(rules, value, today, []) == RunRules(rules[i..], value, today, errors)
    {
      assert rules[i..][0] == rules[i] && rules[i..][1..] == rules[i + 1..];
      var o := ApplyRule(rules[i], value, today);
      if o.Raises? {
        return Raises(o.exc);
      }
      errors := errors + o.errors;
      if rules[i].Required? && errors != [] {
        return Violations(errors);
      }
      i := i + 1;
    }
    r := Violations(errors);
  }

  /** Re-labels each violation with the field name. */
  method StampErrors(field: string, errors: seq<ValidationError>) returns (stamped: seq<ValidationError>)
    ensures stamped == StampAll(field, errors)
  {
    stamped := [];
    var j := 0;
    while j < |errors|
      invariant 0 <= j <= |errors|
      invariant stamped == StampAll(field, errors[..j])
    {
      stamped := stamped + [errors[j].(field := field)];
      j := j + 1;
    }
    assert errors[..j] == errors;
  }

  /** Checks one field against its registered rules. */
  method ValidateField(field: string, value: Value, today: Date) returns (r: Outcome)
    ensures r == FieldOutcome(field, value, today)
    ensures field !in FieldRules ==> r == Violations([])
    ensures r.Violations? ==> forall e :: e in r.errors ==> e.field == field
  {
    if field !in FieldRules {
      return Violations([]);
    }
    var o := RunFieldRules(FieldRules[field], value, today);
    if o.Raises? {
      return o;
    }
    var stamped := StampErrors(field, o.errors);
    r := Violations(stamped);
    forall e | e in stamped ensures e.field == field {
      var k :| 0 <= k < |stamped| && stamped[k] == e;
    }
  }

  /** The violations of the listed fields that `data` holds, field by field
      in list order; the first raising field ends it. */
  function FieldsOutcome(fields: seq<string>, data: Dict, today: Date): Outcome
    requires WfDict(data)
    decreases |fields|
  {
    if fields == [] then Violations([])
    else
      var last := fields[|fields| - 1];
      match FieldsOutcome(fields[..|fields| - 1], data, today)
      case Raises(e) => Raises(e)
      case Violations(es) =>
        if last !in data.vals then Violations(es)
        else match FieldOutcome(last, data.vals[last], today)
          case Raises(e) => Raises(e)
          case Violations(fs) => Violations(es + fs)
  }

  /** Each violation of FieldsOutcome names a listed field that `data` holds. */
  lemma {:induction false} FieldsOutcomeNamesPresentFields(fields: seq<string>, data: Dict, today: Date)
    requires WfDict(data)
    ensures FieldsOutcome(fields, data, today).Violations? ==>
      forall e :: e in FieldsOutcome(fields, data, today).errors ==> e.field in fields && e.field in data.vals
  {
    if fields != [] {
      var init := fields[..|fields| - 1];
      var last := fields[|fields| - 1];
      FieldsOutcomeNamesPresentFields(init, data, today);
      assert forall f :: f in init ==> f in fields;
      if last in data.vals {
        var fo := FieldOutcome(last, data.vals[last], today);
        if fo.Violations? {
          forall e | e in fo.errors ensures e.field == last {
            var k :| 0 <= k < |fo.errors| && fo.errors[k] == e;
          }
        }
      }
    }
  }

  /** The loop shared by `validate_record` and the child validators: run
      `validate_field` on each listed field that `data` holds. */
  method ValidateFields(fields: seq<string>, data: Dict, today: Date) returns (r: Outcome)
    requires WfDict(data)
    ensures r == FieldsOutcome(fields, data, today)
    ensures r.Violations? ==> forall e :: e in r.errors ==> e.field in fields && e.field in data.vals
  {
    var errors: seq<ValidationError> := [];
    var i := 0;
    while i < |fields|
      invariant 0 <= i <= |fields|
      invariant FieldsOutcome(fields[..i], data, today) == Violations(errors)
    {
      assert fields[..i + 1][..i] == fields[..i];
      if fields[i] in data.vals {
        var fieldErrors := ValidateField(fields[i], data.vals[fields[i]], today);
        if fieldErrors.Raises? {
          assert FieldsOutcome(fields[..i + 1], data, today) == fieldErrors;
          FieldsRaisePropagates(fields, data, today, i + 1);
          return fieldErrors;
        }
        errors := errors + fieldErrors.errors;
      }
      i := i + 1;
    }
    assert fields[..i] == fields;
    r := Violations(errors);
    FieldsOutcomeNamesPresentFields(fields, data, today);
  }

  /** Once a prefix of the fields raises, so do all the fields. */
  lemma {:induction false} FieldsRaisePropagates(fields: seq<string>, data: Dict, today: Date, n: nat)
    requires WfDict(data) && n <= |fields|
    requires FieldsOutcome(fields[..n], data, today).Raises?
    ensures FieldsOutcome(fields, data, today) == FieldsOutcome(fields[..n], data, today)
    decreases |fields| - n
  {
    if n < |fields| {
      assert fields[..n + 1][..n] == fields[..n];
      FieldsRaisePropagates(fields, data, today, n + 1);
    } else {
      assert fields[..n] == fields;
    }
  }

  /** `validate_record`: every key the record holds, in insertion order. */
  method ValidateRecord(recordData: Dict, today: Date) returns (r: Outcome)
    requires WfDict(recordData)
    ensures r == FieldsOutcome(recordData.keys, recordData, today)
    ensures r.Violations? ==> forall e :: e in r.errors ==> e.field in recordData.vals
  {
    r := ValidateFields(recordData.keys, recordData, today);
  }

  const ExaminationFields: seq<string> := ["exam_type", "exam_date", "exam_result"]
  const PrescriptionFields: seq<string> := ["medication_name", "dosage", "frequency", "duration"]
  const OperationFields: seq<string> := ["operation_name", "operation_date", "surgeon", "operation_level"]
  const AttachmentFields: seq<string> := ["file_name", "file_type"]

  method ValidateExamination(examData: Dict, today: Date) returns (r: Outcome)
    requires WfDict(examData)
    ensures r == FieldsOutcome(ExaminationFields, examData, today)
    ensures r.Violations? ==> forall e :: e in r.errors ==> e.field in ExaminationFields && e.field in examData.vals
  {
    r := ValidateFields(ExaminationFields, examData, today);
  }

  method ValidatePrescription(prescriptionData: Dict, today: Date) returns (r: Outcome)
    requires WfDict(prescriptionData)
    ensures r == FieldsOutcome(PrescriptionFields, prescriptionData, today)
    ensures r.Violations? ==> forall e :: e in r.errors ==> e.field in PrescriptionFields && e.field in prescriptionData.vals
  {
    r := ValidateFields(PrescriptionFields, prescriptionData, today);
  }

  method ValidateOperation(operationData: Dict, today: Date) returns (r: Outcome)
    requires WfDict(operationData)
    ensures r == FieldsOutcome(OperationFields, operationData, today)
    ensures r.Violations? ==> forall e :: e in r.errors ==> e.field in OperationFields && e.field in operationData.vals
  {
    r := ValidateFields(OperationFields, operationData, today);
  }

  /** The file name and type first, then the file size. */
  method ValidateAttachment(attachmentData: Dict, today: Date) returns (r: Outcome)
    requires WfDict(attachmentData)
    ensures r == FieldsOutcome(AttachmentFields + ["file_size"], attachmentData, today)
    ensures r.Violations? ==> forall e :: e in r.errors ==>
      e.field in ["file_name", "file_type", "file_size"] && e.field in attachmentData.vals
  {
    var all := AttachmentFields + ["file_size"];
    assert all[..2] == AttachmentFields;
    r := ValidateFields(AttachmentFields, attachmentData, today);
    if r.Raises? {
      return;
    }
    if "file_size" in attachmentData.vals {
      var fieldErrors := ValidateField("file_size", attachmentData.vals["file_size"], today);
      if fieldErrors.Raises? {
        return fieldErrors;
      }
      r := Violations(r.errors + fieldErrors.errors);
    }
    FieldsOutcomeNamesPresentFields(all, attachmentData, today);
  }

  // ---------------------------------------------------------------------
  // Properties of the rule engine

  /** The code every violation of a rule kind carries. */
  function RuleCode(rule: Rule): Code {
    match rule
    case Required(_) => RequiredCode
    case Format(_) => FormatCode
    case Range(_, _, _, _, _) => RangeCode
    case Enum(_, _) => EnumCode
    case Regex(_, _) => RegexCode
    case Custom(_, _) => CustomCode
  }

  /** `e` is what one of `rules` reports: the rule's code, and the rule's
      message unless the rule is a custom check with its own message. */
  predicate Explained(e: ValidationError, rules: seq<Rule>) {
    exists j :: 0 <= j < |rules| && RuleCode(rules[j]) == e.code && (rules[j].Custom? || rules[j].message == e.message)
  }

  /** The "not value and value != 0" test holds exactly for None and "". */
  lemma MissingValues(v: Value)
    ensures Missing(v) <==> v == Null || v == Str("")
  {
  }

  /** Each violation a rule reports carries that rule's code and message. */
  lemma ApplyRuleReports(rule: Rule, v: Value, today: Date)
    ensures ApplyRule(rule, v, today).Violations? ==> forall e :: e in ApplyRule(rule, v, today).errors ==>
      e.code == RuleCode(rule) && e.field == "" && (rule.Custom? || e.message == rule.message)
  {
  }

  /** Every violation the rule loop adds to `acc` comes from one of the rules. */
  lemma {:induction false} RunRulesReports(rules: seq<Rule>, v: Value, today: Date, acc: seq<ValidationError>)
    ensures RunRules(rules, v, today, acc).Violations? ==>
      forall e :: e in RunRules(rules, v, today, acc).errors ==> e in acc || Explained(e, rules)
    decreases |rules|
  {
    if rules != [] {
      var o := ApplyRule(rules[0], v, today);
      ApplyRuleReports(rules[0], v, today);
      if o.Violations? {
        var next := acc + o.errors;
        forall e | e in next && e !in acc ensures Explained(e, rules) {
          assert e in o.errors;
          assert RuleCode(rules[0]) == e.code && (rules[0].Custom? || rules[0].message == e.message);
        }
        if !(rules[0].Required? && next != []) {
          RunRulesReports(rules[1..], v, today, next);
          forall e | Explained(e, rules[1..]) ensures Explained(e, rules) {
            var j :| 0 <= j < |rules[1..]| && RuleCode(rules[1..][j]) == e.code
              && (rules[1..][j].Custom? || rules[1..][j].message == e.message);
            assert rules[j + 1] == rules[1..][j];
          }
        }
      }
    }
  }

  /** Every violation `validate_field` returns names the field and is what
      one of its registered rules reports. */
  lemma FieldOutcomeReports(field: string, v: Value, today: Date)
    ensures FieldOutcome(field, v, today).Violations? ==>
      forall e :: e in FieldOutcome(field, v, today).errors ==>
        e.field == field && field in FieldRules && Explained(e.(field := ""), FieldRules[field])
  {
    if field in FieldRules {
      var rules := FieldRules[field];
      var o := RunRules(rules, v, today, []);
      RunRulesReports(rules, v, today, []);
      if o.Violations? {
        forall e | e in FieldOutcome(field, v, today).errors
          ensures e.field == field && Explained(e.(field := ""), rules)
        {
          var k :| 0 <= k < |StampAll(field, o.errors)| && StampAll(field, o.errors)[k] == e;
          assert o.errors[k] in o.errors;
          RunRulesLeaveFieldEmpty(rules, v, today, [], o.errors[k]);
          assert e.(field := "") == o.errors[k];
        }
      }
    }
  }

  /** The rule loop reports violations with an empty field until they are stamped. */
  lemma {:induction false} RunRulesLeaveFieldEmpty(rules: seq<Rule>, v: Value, today: Date, acc: seq<ValidationError>, e: ValidationError)
    requires forall a :: a in acc ==> a.field == ""
    requires RunRules(rules, v, today, acc).Violations? && e in RunRules(rules, v, today, acc).errors
    ensures e.field == ""
    decreases |rules|
  {
    if rules != [] {
      var o := ApplyRule(rules[0], v, today);
      ApplyRuleReports(rules[0], v, today);
      var next := acc + o.errors;
      if !(rules[0].Required? && next != []) {
        RunRulesLeaveFieldEmpty(rules[1..], v, today, next, e);
      }
    }
  }

  /** A missing value stops at the Required rule: the field reports exactly
      its required-message violation and nothing else. */
  lemma RequiredShortCircuits(field: string, v: Value, today: Date)
    requires field in FieldRules && |FieldRules[field]| > 0 && FieldRules[field][0].Required?
    requires Missing(v)
    ensures FieldOutcome(field, v, today)
      == Violations([ValidationError(field, FieldRules[field][0].message, RequiredCode)])
  {
    var rules := FieldRules[field];
    assert RunRules(rules, v, today, []) == Violations([Violation(rules[0].message, RequiredCode)]);
  }

  /** Every registered field except the file size starts with a Required rule. */
  lemma CatalogRequiredFirst(field: string)
    requires field in FieldRules && field != "file_size"
    ensures |FieldRules[field]| > 0 && FieldRules[field][0].Required?
  {
  }

  // ---------------------------------------------------------------------
  // The catalog on particular values

  /** A present value passes the leading Required rule and the loop goes on. */
  lemma PresentPassesRequired(rules: seq<Rule>, v: Value, today: Date)
    requires |rules| > 0 && rules[0].Required? && !Missing(v)
    ensures RunRules(rules, v, today, []) == RunRules(rules[1..], v, today, [])
  {
  }

  /** The loop over the last rule. */
  lemma LastRule(rule: Rule, v: Value, today: Date)
    ensures RunRules([rule], v, today, []) ==
      match ApplyRule(rule, v, today)
      case Raises(e) => Raises(e)
      case Violations(es) => Violations(es)
  {
    assert [rule][1..] == [];
  }

  /** A field with a Required rule and one more rule, holding a present value,
      reports what the second rule reports. */
  lemma SecondRuleDecides(field: string, v: Value, today: Date)
    requires field in FieldRules && |FieldRules[field]| == 2 && FieldRules[field][0].Required? && !Missing(v)
    ensures FieldOutcome(field, v, today) ==
      match ApplyRule(FieldRules[field][1], v, today)
      case Raises(e) => Raises(e)
      case Violations(es) => Violations(StampAll(field, es))
  {
    var rules := FieldRules[field];
    PresentPassesRequired(rules, v, today);
    assert rules[1..] == [rules[1]];
    LastRule(rules[1], v, today);
  }

  /** `P` and eight digits passes. */
  lemma PatientIdAccepted(today: Date)
    ensures FieldOutcome("patient_id", Str("P12345678"), today) == Violations([])
  {
    assert PatientIdBody("P12345678");
    SecondRuleDecides("patient_id", Str("P12345678"), today);
  }

  /** Seven digits is a regex violation. */
  lemma PatientIdTooShort(today: Date)
    ensures FieldOutcome("patient_id", Str("P1234567"), today)
      == Violations([ValidationError("patient_id", "患者ID格式不正确(P+8位数字)", RegexCode)])
  {
    assert !PatientIdBody("P1234567");
    assert !EndsWithNewline("P1234567");
    SecondRuleDecides("patient_id", Str("P1234567"), today);
  }

  /** An int id makes `re.match` raise TypeError. */
  lemma PatientIdNotString(today: Date)
    ensures FieldOutcome("patient_id", Int(12345678), today) == Raises(TypeError)
  {
    SecondRuleDecides("patient_id", Int(12345678), today);
  }

  /** `$` also matches before a final newline, so an id followed by one
      newline passes. */
  lemma PatientIdTrailingNewline(today: Date)
    ensures FieldOutcome("patient_id", Str("P12345678\n"), today) == Violations([])
  {
    assert Chop("P12345678\n") == "P12345678";
    assert PatientIdBody("P12345678");
    SecondRuleDecides("patient_id", Str("P12345678\n"), today);
  }

  /** A complaint of 2 to 500 characters passes; one character, or more than
      500, is a range violation. */
  lemma ChiefComplaintLength(s: string, today: Date)
    requires s != ""
    ensures 2 <= |s| <= 500 ==> FieldOutcome("chief_complaint", Str(s), today) == Violations([])
    ensures (|s| == 1 || |s| > 500) ==>
      FieldOutcome("chief_complaint", Str(s), today)
        == Violations([ValidationError("chief_complaint", "主诉长度必须在2-500字之间", RangeCode)])
  {
    SecondRuleDecides("chief_complaint", Str(s), today);
  }

  /** The file size must be an int within 0..100 MiB; anything else raises,
      None included, as the field has no Required rule. */
  lemma FileSizeBounds(v: Value, today: Date)
    ensures v.Int? && 0 <= v.i <= MaxFileSize ==> FieldOutcome("file_size", v, today) == Violations([])
    ensures v.Int? && (v.i < 0 || v.i > MaxFileSize) ==>
      FieldOutcome("file_size", v, today)
        == Violations([ValidationError("file_size", "文件大小超过限制(100MB)", RangeCode)])
    ensures !v.Int? ==> FieldOutcome("file_size", v, today) == Raises(TypeError)
  {
    LastRule(Range(None, None, Some(0), Some(MaxFileSize), "文件大小超过限制(100MB)"), v, today);
  }

  /** A record type passes exactly when it is one of the four listed names. */
  lemma RecordTypeEnum(s: string, today: Date)
    requires s != ""
    ensures FieldOutcome("record_type", Str(s), today) == Violations([]) <==> s in RecordTypeValues
    ensures s !in RecordTypeValues ==>
      FieldOutcome("record_type", Str(s), today)
        == Violations([ValidationError("record_type", "无效的病历类型", EnumCode)])
  {
    SecondRuleDecides("record_type", Str(s), today);
  }

  /** The level "四级手术" is not one of the listed operation levels. */
  lemma OperationLevelLongForm(today: Date)
    ensures FieldOutcome("operation_level", Str("四级手术"), today)
      == Violations([ValidationError("operation_level", "无效的手术等级", EnumCode)])
    ensures FieldOutcome("operation_level", Str("四级"), today) == Violations([])
  {
    SecondRuleDecides("operation_level", Str("四级手术"), today);
    SecondRuleDecides("operation_level", Str("四级"), today);
  }

  /** The visit-date rules once the value is present: the format check,
      then the custom check. */
  lemma VisitDateRun(s: string, today: Date)
    requires s != ""
    ensures var rules := FieldRules["visit_date"];
      RunRules(rules, Str(s), today, [])
        == RunRules([rules[2]], Str(s), today, ApplyRule(rules[1], Str(s), today).errors)
  {
    var rules := FieldRules["visit_date"];
    PresentPassesRequired(rules, Str(s), today);
    assert rules[1..][0] == rules[1] && rules[1..][1..] == [rules[2]];
  }

  /** A visit on or before today passes. */
  lemma VisitDateNotLater(s: string, today: Date)
    requires s != "" && ParseYmd(s).Some? && !After(ParseYmd(s).value, today)
    ensures FieldOutcome("visit_date", Str(s), today) == Violations([])
  {
    var rules := FieldRules["visit_date"];
    var v := Str(s);
    VisitDateRun(s, today);
    assert ApplyRule(rules[1], v, today) == Violations([]);
    assert ApplyRule(rules[2], v, today) == Violations([]);
    assert [rules[2]][1..] == [];
    assert RunRules([rules[2]], v, today, []) == RunRules([], v, today, []);
  }

  /** A visit after today is a custom violation. */
  lemma VisitDateLater(s: string, today: Date)
    requires s != "" && ParseYmd(s).Some? && After(ParseYmd(s).value, today)
    ensures FieldOutcome("visit_date", Str(s), today)
      == Violations([ValidationError("visit_date", "就诊日期不能晚于今天", CustomCode)])
  {
    var rules := FieldRules["visit_date"];
    var v := Str(s);
    var es := [Violation("就诊日期不能晚于今天", CustomCode)];
    VisitDateRun(s, today);
    assert ApplyRule(rules[1], v, today) == Violations([]);
    assert ApplyRule(rules[2], v, today) == Violations(es);
    assert [rules[2]][1..] == [];
    assert [] + es == es;
    assert RunRules([rules[2]], v, today, []) == Violations(es);
    assert StampAll("visit_date", es)[0] == ValidationError("visit_date", "就诊日期不能晚于今天", CustomCode);
  }

  /** A string strptime rejects raises ValueError: the custom check parses
      again without catching. */
  lemma VisitDateUnparsable(s: string, today: Date)
    requires s != "" && ParseYmd(s).None?
    ensures FieldOutcome("visit_date", Str(s), today) == Raises(ValueError)
  {
    var rules := FieldRules["visit_date"];
    var v := Str(s);
    VisitDateRun(s, today);
    assert [rules[2]][1..] == [];
  }

  lemma DosageAccepts()
    ensures DosageBody("0.3g") && DosageBody("10mg")
  {
    assert LeadingDigits("0.3g") == 1 && "0.3g"[1..] == ".3g" && ".3g"[1..] == "3g";
    assert LeadingDigits("3g") == 1 && "3g"[1..] == "g";
    assert UnitPart("0.3g") == "g";
    assert LeadingDigits("10mg") == 2 && "10mg"[2..] == "mg" && LeadingDigits("mg") == 0;
    assert UnitPart("10mg") == "mg";
  }

  lemma DosageRejects()
    ensures !DosageBody("0.3") && !DosageBody("g")
  {
    assert LeadingDigits("0.3") == 1 && "0.3"[1..] == ".3" && ".3"[1..] == "3";
    assert LeadingDigits("3") == 1 && "3"[1..] == "";
    assert UnitPart("0.3") == "";
    assert LeadingDigits("g") == 0;
  }

  /** The dosage field's rules. */
  lemma DosageRules()
    ensures "dosage" in FieldRules
    ensures FieldRules["dosage"] == [Required("用药剂量不能为空"), Regex(DosagePattern, "剂量格式不正确(如: 0.3g)")]
  {
  }

  /** A present string in a field with a Required rule and a regex: it
      passes exactly when the pattern matches. */
  lemma RegexFieldOutcome(field: string, s: string, today: Date)
    requires field in FieldRules && |FieldRules[field]| == 2
    requires FieldRules[field][0].Required? && FieldRules[field][1].Regex? && s != ""
    ensures var rule := FieldRules[field][1];
      FieldOutcome(field, Str(s), today)
        == Violations(if Matches(rule.pattern, s) then [] else [ValidationError(field, rule.message, RegexCode)])
  {
    SecondRuleDecides(field, Str(s), today);
  }

  /** A number then a unit is a dosage. */
  lemma DosageAccepted(today: Date)
    ensures FieldOutcome("dosage", Str("0.3g"), today) == Violations([])
  {
    DosageRules();
    DosageAccepts();
    assert Matches(DosagePattern, "0.3g");
    RegexFieldOutcome("dosage", "0.3g", today);
  }

  /** An integer amount needs no point. */
  lemma DosageIntegerAccepted(today: Date)
    ensures FieldOutcome("dosage", Str("10mg"), today) == Violations([])
  {
    DosageRules();
    DosageAccepts();
    assert Matches(DosagePattern, "10mg");
    RegexFieldOutcome("dosage", "10mg", today);
  }

  /** A number without a unit, or a unit without a number, is not. */
  lemma DosageRejected(today: Date)
    ensures FieldOutcome("dosage", Str("0.3"), today)
      == Violations([ValidationError("dosage", "剂量格式不正确(如: 0.3g)", RegexCode)])
    ensures FieldOutcome("dosage", Str("g"), today)
      == Violations([ValidationError("dosage", "剂量格式不正确(如: 0.3g)", RegexCode)])
  {
    DosageRules();
    DosageRejects();
    assert !EndsWithNewline("0.3") && !EndsWithNewline("g");
    RegexFieldOutcome("dosage", "0.3", today);
    RegexFieldOutcome("dosage", "g", today);
  }

  /** File names: word characters (CJK included), `-`, `.` and space. */
  lemma FileNameExamples(today: Date)
    ensures FieldOutcome("file_name", Str("CT检查报告.pdf"), today) == Violations([])
    ensures FieldOutcome("file_name", Str("a/b.pdf"), today)
      == Violations([ValidationError("file_name", "文件名包含非法字符", RegexCode)])
  {
    assert FileNameBody("CT检查报告.pdf");
    assert !FileNameBody("a/b.pdf") by { assert "a/b.pdf"[1] == '/'; }
    assert !EndsWithNewline("a/b.pdf");
    SecondRuleDecides("file_name", Str("CT检查报告.pdf"), today);
    SecondRuleDecides("file_name", Str("a/b.pdf"), today);
  }
}
