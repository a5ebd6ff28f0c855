/**
  The request-body validation middleware: the `validators` (`required`, `email`,
  `minLength`, `maxLength`) and `validateBody`, which wraps a handler so that a POST
  body is parsed and checked field by field before the handler runs.

  `JSON.parse` is an oracle `parse`, the wrapped handler's behaviour is a parameter,
  and responses are the datatype `Response` rather than HTTP objects. A validator
  either answers or throws; a throw is `None`.
 */
module Validate {
  import opened Optional
  import opened Strings
  import opened Sequences

  /** A value `JSON.parse` can produce, plus `undefined`. Numbers are integer-valued. */
  datatype Value =
    | Undefined
    | Null
    | Bool(b: bool)
    | Num(n: int)
    | Str(s: string)
    | Arr(elems: seq<Value>)
    | Obj(fields: map<string, Value>)

  /**
    `String(value)`, which `RegExp.prototype.test` applies to its argument; `None` when
    the conversion throws. Arrays are joined with commas, writing `null` and `undefined`
    elements as empty strings. A parsed object is `"[object Object]"` unless it has its
    own `toString` field: that field is data, not a method, and the inherited `valueOf`
    gives back the object itself, so the conversion throws a `TypeError`.
   */
  function ToJsString(v: Value): (r: Option<string>)
    ensures v.Str? ==> r == Some(v.s)
    ensures r.None? ==> v.Arr? || v.Obj?
    ensures v.Obj? ==> (r.None? <==> "toString" in v.fields)
    decreases v
  {
    match v
    case Undefined => Some("undefined")
    case Null => Some("null")
    case Bool(b) => Some(if b then "true" else "false")
    case Num(n) => Some(IntToString(n))
    case Str(s) => Some(s)
    case Arr(a) =>
      if exists i :: 0 <= i < |a| && ToJsString(a[i]).None? then None
      else Some(Join(seq(|a|, i requires 0 <= i < |a| =>
                           if a[i].Undefined? || a[i].Null? then "" else ToJsString(a[i]).value), ","))
    case Obj(m) => if "toString" in m then None else Some("[object Object]")
  }

  /** A number as the relational operators see it: not-a-number, or an integer. */
  datatype JsNumber = NaN | Int(n: int)

  /** `String.prototype.trim`: white space and line terminators removed from both ends. */
  function TrimStart(s: string): (r: string)
    ensures |r| <= |s| && (r != [] ==> !IsJsWhitespace(r[0]))
  {
    if s != [] && IsJsWhitespace(s[0]) then TrimStart(s[1..]) else s
  }

  function TrimEnd(s: string): (r: string)
    ensures |r| <= |s| && (r != [] ==> !IsJsWhitespace(r[|r| - 1]))
  {
    if s != [] && IsJsWhitespace(s[|s| - 1]) then TrimEnd(s[..|s| - 1]) else s
  }

  /**
    The number a string denotes, for the decimal integers: after trimming, the empty
    string is 0, and an optional sign followed by digits is that integer; anything else
    is not-a-number here.
   */
  function StringToNumber(s: string): (r: JsNumber)
    ensures s == "" ==> r == Int(0)
    ensures s != "" && AllDigits(s) ==> r == Int(DigitsValue(s))
  {
    TrimDigits(s);
    var t := TrimEnd(TrimStart(s));
    if t == "" then Int(0)
    else if AllDigits(t) then Int(DigitsValue(t))
    else if |t| > 1 && (t[0] == '-' || t[0] == '+') && AllDigits(t[1..]) then
      Int(if t[0] == '-' then -(DigitsValue(t[1..]) as int) else DigitsValue(t[1..]))
    else NaN
  }

  /** A digit string is its own trimmed form. */
  lemma TrimDigits(s: string)
    ensures s != "" && AllDigits(s) ==> TrimEnd(TrimStart(s)) == s
  {
    if s != "" && AllDigits(s) {
      assert IsDigit(s[0]) && IsDigit(s[|s| - 1]);
    }
  }

  /**
    The numeric conversion a relational operator applies; `None` when it throws. An
    object or array goes through `String(value)`, as its inherited `valueOf` gives back
    the object itself.
   */
  function ToNumber(v: Value): (r: Option<JsNumber>)
    ensures v.Num? ==> r == Some(Int(v.n))
    ensures r.None? <==> ToJsString(v).None?
  {
    match v
    case Undefined => Some(NaN)
    case Null => Some(Int(0))
    case Bool(b) => Some(Int(if b then 1 else 0))
    case Num(n) => Some(Int(n))
    case Str(s) => Some(StringToNumber(s))
    case _ =>
      match ToJsString(v)
      case None => None
      case Some(s) => Some(StringToNumber(s))
  }

  // ---------------------------------------------------------------------------
  // validators

  /** `required`: not `undefined`, not `null`, not the empty string. */
  predicate Required(v: Value)
    // Every other value passes, `0` and `false` included.
    ensures !v.Undefined? && !v.Null? && !v.Str? ==> Required(v)
    ensures v.Str? ==> (Required(v) <==> v.s != "")
    ensures v.Undefined? || v.Null? ==> !Required(v)
  {
    v != Undefined && v != Null && v != Str("")
  }

  /** Reading a field of `body` throws: it is `null` or `undefined`. */
  predicate Unreadable(body: Value) {
    body.Undefined? || body.Null?
  }

  /** The array index a property name denotes: a decimal numeral without leading zeros. */
  function ArrayIndex(field: string): Option<nat> {
    if field != "" && AllDigits(field) && (field[0] != '0' || field == "0") then Some(DigitsValue(field))
    else None
  }

  /**
    `body[field]`; `None` when the access throws. Objects have their own fields, arrays
    and strings their indices and `length`; inherited methods are not values here.
   */
  function Lookup(body: Value, field: string): (r: Option<Value>)
    ensures r.None? <==> Unreadable(body)
    ensures body.Obj? ==> r == Some(if field in body.fields then body.fields[field] else Undefined)
    ensures body.Arr? && field == "length" ==> r == Some(Num(|body.elems|))
    ensures body.Str? && field == "length" ==> r == Some(Num(|body.s|))
  {
    match body
    case Undefined => None
    case Null => None
    case Obj(m) => Some(if field in m then m[field] else Undefined)
    case Arr(a) =>
      if field == "length" then Some(Num(|a|))
      else if ArrayIndex(field).Some? && ArrayIndex(field).value < |a| then Some(a[ArrayIndex(field).value])
      else Some(Undefined)
    case Str(s) =>
      if field == "length" then Some(Num(|s|))
      else if ArrayIndex(field).Some? && ArrayIndex(field).value < |s| then Some(Str([s[ArrayIndex(field).value]]))
      else Some(Undefined)
    case _ => Some(Undefined)
  }

  /** An element of an array body is read by its index written in decimal. */
  lemma ArrayIndexLookup(a: seq<Value>, i: nat)
    requires i < |a|
    ensures Lookup(Arr(a), NatToString(i)) == Some(a[i])
  {
    NatToStringNoLeadingZero(i);
    NatToStringValue(i);
    assert NatToString(i) != "length" by {
      assert '0' <= NatToString(i)[0] <= '9';
    }
    assert ArrayIndex(NatToString(i)) == Some(i);
  }

  /** `\s` in a JavaScript regular expression: white space and line terminators. */
  predicate IsJsWhitespace(c: char) {
    var n := c as int;
    || (0x09 <= n <= 0x0D) || n == 0x20 || n == 0xA0 || n == 0x1680
    || (0x2000 <= n <= 0x200A) || n == 0x2028 || n == 0x2029 || n == 0x202F
    || n == 0x205F || n == 0x3000 || n == 0xFEFF
  }

  /** A character the class `[^\s@]` matches. */
  predicate Plain(c: char) {
    c != '@' && !IsJsWhitespace(c)
  }

  /** Every character of `s` in `[lo, hi)` is plain. */
  predicate PlainBetween(s: string, lo: int, hi: int)
    requires 0 <= lo && hi <= |s|
  {
    forall k :: lo <= k < hi ==> Plain(s[k])
  }

  /** No character of `s` in `[lo, hi)` is white space. */
  predicate NoWhitespaceBetween(s: string, lo: int, hi: int)
    requires 0 <= lo && hi <= |s|
  {
    forall k :: lo <= k < hi ==> !IsJsWhitespace(s[k])
  }

  /**
    What `/^[^\s@]+@[^\s@]+\.[^\s@]+$/` matches, read as a split of the whole string:
    a non-empty plain run, `@` at `i`, a non-empty plain run, `.` at `j`, a non-empty
    plain run.
   */
  ghost predicate EmailPattern(s: string) {
    exists i, j :: 0 < i && i + 1 < j && j + 1 < |s| && s[i] == '@' && s[j] == '.'
                   && PlainBetween(s, 0, i) && PlainBetween(s, i + 1, j) && PlainBetween(s, j + 1, |s|)
  }

  /** The test at the last `@`. */
  predicate EmailAt(s: string, i: int) {
    && 0 < i && i + 2 < |s|
    && PlainBetween(s, 0, i)
    && NoWhitespaceBetween(s, i + 1, |s|)
    && '.' in s[i + 2..|s| - 1]
  }

  /**
    The email test on a string: exactly one `@`, not first; no white space; and a `.`
    after the `@` that is neither right after it nor last.
   */
  function EmailString(s: string): (r: bool)
    ensures r <==> EmailPattern(s)
  {
    EmailAtIsPattern(s);
    EmailAt(s, LastIndexOf(s, '@'))
  }

  /** No `@` follows the last one. */
  lemma AfterLastAt(s: string)
    ensures forall k :: LastIndexOf(s, '@') < k < |s| ==> s[k] != '@'
  {
    var i := LastIndexOf(s, '@');
    forall k | i < k < |s| ensures s[k] != '@' {
      assert s[k] == s[i + 1..][k - i - 1];
    }
  }

  lemma EmailAtIsPattern(s: string)
    ensures EmailAt(s, LastIndexOf(s, '@')) <==> EmailPattern(s)
  {
    if EmailAt(s, LastIndexOf(s, '@')) {
      EmailAtGivesPattern(s);
    }
    if EmailPattern(s) {
      PatternGivesEmailAt(s);
    }
  }

  lemma EmailAtGivesPattern(s: string)
    requires EmailAt(s, LastIndexOf(s, '@'))
    ensures EmailPattern(s)
  {
    var i := LastIndexOf(s, '@');
    AfterLastAt(s);
    var m :| 0 <= m < |s[i + 2..|s| - 1]| && s[i + 2..|s| - 1][m] == '.';
    var j := i + 2 + m;
    assert s[j] == '.';
    assert PlainBetween(s, i + 1, j) && PlainBetween(s, j + 1, |s|);
  }

  lemma PatternGivesEmailAt(s: string)
    requires EmailPattern(s)
    ensures EmailAt(s, LastIndexOf(s, '@'))
  {
    var i, j :| 0 < i && i + 1 < j && j + 1 < |s| && s[i] == '@' && s[j] == '.'
                && PlainBetween(s, 0, i) && PlainBetween(s, i + 1, j) && PlainBetween(s, j + 1, |s|);
    PatternAtIsLast(s, i, j);
    PatternSuffix(s, i, j);
  }

  /** In a match, the `@` of the split is the last one. */
  lemma PatternAtIsLast(s: string, i: int, j: int)
    requires 0 < i && i + 1 < j && j + 1 < |s| && s[i] == '@' && s[j] == '.'
    requires PlainBetween(s, i + 1, j) && PlainBetween(s, j + 1, |s|)
    ensures LastIndexOf(s, '@') == i
  {
    assert forall k :: i < k < |s| ==> s[k] != '@';
    assert '@' !in s[i + 1..];
    LastIndexOfUnique(s, '@', i);
  }

  /** In a match, the part after the `@` has no white space and a `.` neither first nor last. */
  lemma PatternSuffix(s: string, i: int, j: int)
    requires 0 < i && i + 1 < j && j + 1 < |s| && s[j] == '.'
    requires PlainBetween(s, i + 1, j) && PlainBetween(s, j + 1, |s|)
    ensures NoWhitespaceBetween(s, i + 1, |s|) && '.' in s[i + 2..|s| - 1]
  {
    assert s[i + 2..|s| - 1][j - i - 2] == '.';
  }

  /** `email`: the regular expression matched against `String(value)`, which can throw. */
  function Email(v: Value): (r: Option<bool>)
    ensures r.None? <==> ToJsString(v).None?
    ensures r.Some? ==> (r.value <==> EmailPattern(ToJsString(v).value))
  {
    match ToJsString(v)
    case None => None
    case Some(s) => Some(EmailString(s))
  }

  /** `value?.length`: `undefined` for `null` and `undefined`, otherwise the `length` property. */
  function LengthField(v: Value): Value {
    match Lookup(v, "length")
    case None => Undefined
    case Some(x) => x
  }

  /** `x >= n` (`atLeast`) or `x <= n` with `x` converted to a number; not-a-number compares false. */
  function Compare(x: Value, n: int, atLeast: bool): Option<bool> {
    match ToNumber(x)
    case None => None
    case Some(NaN) => Some(false)
    case Some(Int(k)) => Some(if atLeast then k >= n else k <= n)
  }

  /** `minLength(n)`: `value?.length >= n`. */
  function MinLength(n: int, v: Value): (r: Option<bool>)
    ensures v.Str? ==> r == Some(|v.s| >= n)
    ensures v.Arr? ==> r == Some(|v.elems| >= n)
    ensures !v.Str? && !v.Arr? && !v.Obj? ==> r == Some(false)
  {
    Compare(LengthField(v), n, true)
  }

  /** `maxLength(n)`: `value?.length <= n`. */
  function MaxLength(n: int, v: Value): (r: Option<bool>)
    ensures v.Str? ==> r == Some(|v.s| <= n)
    ensures v.Arr? ==> r == Some(|v.elems| <= n)
    ensures !v.Str? && !v.Arr? && !v.Obj? ==> r == Some(false)
  {
    Compare(LengthField(v), n, false)
  }

  /** No validator accepts a missing field, and none throws on it. */
  lemma ValidatorsOnUndefined(n: int)
    ensures !Required(Undefined)
    ensures Email(Undefined) == Some(false) && MinLength(n, Undefined) == Some(false)
    ensures MaxLength(n, Undefined) == Some(false)
  {
    assert ToJsString(Undefined) == Some("undefined");
    assert '@' !in "undefined";
  }

  /** On strings, the length validators compare the length, and `required` passes `0`. */
  lemma ValidatorsOnStrings(s: string, n: int)
    ensures MinLength(n, Str(s)) == Some(|s| >= n)
    ensures MaxLength(n, Str(s)) == Some(|s| <= n)
    ensures Required(Str(s)) <==> s != ""
    ensures Required(Num(0))
  {
  }

  /**
    A `length` field that is not a number is converted before the comparison: a digit
    string counts as its value, `true` as 1 and `null` as 0.
   */
  lemma LengthFieldConverted(s: string, n: int)
    requires s != "" && AllDigits(s)
    ensures MinLength(n, Obj(map["length" := Str(s)])) == Some(DigitsValue(s) >= n)
    ensures MaxLength(n, Obj(map["length" := Str(s)])) == Some(DigitsValue(s) <= n)
    ensures MinLength(1, Obj(map["length" := Bool(true)])) == Some(true)
    ensures MaxLength(n, Obj(map["length" := Null])) == Some(0 <= n)
  {
    assert LengthField(Obj(map["length" := Str(s)])) == Str(s);
  }

  /** An object whose own `toString` is data makes `email` throw. */
  lemma EmailThrowsOnToStringField(m: map<string, Value>)
    requires "toString" in m
    ensures Email(Obj(m)) == None
  {
  }

  // ---------------------------------------------------------------------------
  // validateBody

  /**
    One entry of the rules object: a field name and its validator, whose answer is
    `None` when it throws.
   */
  datatype Rule = Rule(field: string, check: Value -> Option<bool>)

  /** The message for a failing field. */
  function ErrorFor(field: string): string {
    "Invalid " + field
  }

  /** Reading the rule's field throws, or its validator throws on the field. */
  function ThrowsOn(body: Value): Rule -> bool {
    (r: Rule) => Lookup(body, r.field).None? || r.check(Lookup(body, r.field).value).None?
  }

  /** The rule's validator answers `false` on the field. */
  function FailsOn(body: Value): Rule -> bool {
    (r: Rule) => Lookup(body, r.field).Some? && r.check(Lookup(body, r.field).value) == Some(false)
  }

  /** The rule's validator answers `true` on the field. */
  function PassesOn(body: Value): Rule -> bool {
    (r: Rule) => Lookup(body, r.field).Some? && r.check(Lookup(body, r.field).value) == Some(true)
  }

  /**
    The error list the rules produce on `body`, in rule order; `None` when reading a
    field or a validator throws, which ends the `forEach`.
   */
  function ErrorsOf(rules: seq<Rule>, body: Value): (r: Option<seq<string>>)
    ensures r.None? <==> exists k :: 0 <= k < |rules| && ThrowsOn(body)(rules[k])
    ensures r.Some? ==> |r.value| <= |rules|
  {
    if rules == [] then Some([])
    else
      var init, last := rules[..|rules| - 1], rules[|rules| - 1];
      assert forall k :: 0 <= k < |init| ==> init[k] == rules[k];
      match ErrorsOf(init, body)
      case None => None
      case Some(errors) =>
        match Lookup(body, last.field)
        case None => None
        case Some(v) =>
          match last.check(v)
          case None => None
          case Some(ok) => Some(errors + (if ok then [] else [ErrorFor(last.field)]))
  }

  /** Appending a rule that answers appends its message when the answer is `false`. */
  lemma ErrorsOfSnoc(init: seq<Rule>, last: Rule, body: Value, errors: seq<string>)
    requires ErrorsOf(init, body) == Some(errors) && Lookup(body, last.field).Some?
    requires last.check(Lookup(body, last.field).value).Some?
    ensures ErrorsOf(init + [last], body)
            == Some(if last.check(Lookup(body, last.field).value).value then errors else errors + [ErrorFor(last.field)])
  {
    assert (init + [last])[..|init|] == init;
    assert errors + [] == errors;
  }

  function Messages(rules: seq<Rule>): (r: seq<string>)
    ensures |r| == |rules|
    ensures forall k :: 0 <= k < |r| ==> r[k] == ErrorFor(rules[k].field)
  {
    seq(|rules|, k requires 0 <= k < |rules| => ErrorFor(rules[k].field))
  }

  /**
    When no rule throws, the error list holds one message per failing rule, in rule
    order, and nothing else.
   */
  lemma {:induction false} ErrorsAreFailingRules(rules: seq<Rule>, body: Value)
    requires forall k :: 0 <= k < |rules| ==> !ThrowsOn(body)(rules[k])
    ensures ErrorsOf(rules, body) == Some(Messages(Filter(rules, FailsOn(body))))
    decreases |rules|
  {
    if rules != [] {
      var init := rules[..|rules| - 1];
      var last := rules[|rules| - 1];
      assert forall k :: 0 <= k < |init| ==> init[k] == rules[k];
      ErrorsAreFailingRules(init, body);
      var f := Filter(init, FailsOn(body));
      assert !ThrowsOn(body)(last);
      if FailsOn(body)(last) {
        assert Filter(rules, FailsOn(body)) == f + [last];
        assert Messages(f + [last]) == Messages(f) + [ErrorFor(last.field)];
        assert ErrorsOf(rules, body) == Some(Messages(f) + [ErrorFor(last.field)]);
      } else {
        assert Filter(rules, FailsOn(body)) == f;
        assert ErrorsOf(rules, body) == Some(Messages(f) + []);
        assert Messages(f) + [] == Messages(f);
      }
    }
  }

  /** Rules on which every validator answers `true` give no error. */
  lemma {:induction false} AllPassNoErrors(rules: seq<Rule>, body: Value)
    requires forall k :: 0 <= k < |rules| ==> PassesOn(body)(rules[k])
    ensures ErrorsOf(rules, body) == Some([])
    decreases |rules|
  {
    if rules != [] {
      var init, last := rules[..|rules| - 1], rules[|rules| - 1];
      assert forall k :: 0 <= k < |init| ==> init[k] == rules[k];
      AllPassNoErrors(init, body);
      assert PassesOn(body)(last);
      assert ErrorsOf(rules, body) == Some([] + []);
    }
  }

  /** No error means every validator answered `true`. */
  lemma {:induction false} NoErrorsAllPass(rules: seq<Rule>, body: Value)
    requires ErrorsOf(rules, body) == Some([])
    ensures forall k :: 0 <= k < |rules| ==> PassesOn(body)(rules[k])
    decreases |rules|
  {
    if rules != [] {
      var init, last := rules[..|rules| - 1], rules[|rules| - 1];
      assert forall k :: 0 <= k < |init| ==> init[k] == rules[k];
      var errors := ErrorsOf(init, body).value;
      var v := Lookup(body, last.field).value;
      assert errors + (if last.check(v).value then [] else [ErrorFor(last.field)]) == [];
      assert |errors| == 0 && last.check(v) == Some(true);
      NoErrorsAllPass(init, body);
      assert PassesOn(body)(last);
    }
  }

  /** No error at all exactly when every validator answers `true`. */
  lemma NoErrorsIffAllPass(rules: seq<Rule>, body: Value)
    ensures ErrorsOf(rules, body) == Some([]) <==> forall k :: 0 <= k < |rules| ==> PassesOn(body)(rules[k])
  {
    if forall k :: 0 <= k < |rules| ==> PassesOn(body)(rules[k]) {
      AllPassNoErrors(rules, body);
    }
    if ErrorsOf(rules, body) == Some([]) {
      NoErrorsAllPass(rules, body);
    }
  }

  /** The `forEach` over the rules, pushing a message for each failing field. */
  method CollectErrors(rules: seq<Rule>, body: Value) returns (r: Option<seq<string>>)
    ensures r == ErrorsOf(rules, body)
  {
    var errors: seq<string> := [];
    var i := 0;
    while i < |rules|
      invariant 0 <= i <= |rules|
      invariant ErrorsOf(rules[..i], body) == Some(errors)
    {
      assert rules[..i + 1][..i] == rules[..i];
      var v := Lookup(body, rules[i].field);
      if v.None? {
        return None;
      }
      var ok := rules[i].check(v.value);
      if ok.None? {
        return None;
      }
      ghost var before := errors;
      if !ok.value {
        errors := errors + [ErrorFor(rules[i].field)];
      } else {
        assert errors == before + [];
      }
      assert ErrorsOf(rules[..i + 1], body) == Some(errors);
      i := i + 1;
    }
    assert rules[..i] == rules;
    return Some(errors);
  }

  /** What the wrapped handler does when called. */
  datatype HandlerOutcome<R> = Returns(response: R) | ReturnsNothing | Throws

  /** The responses the wrapper produces. */
  datatype Response<R> =
    | FromHandler(response: R)            // the handler's own response
    | Success                             // 200, `{"message":"Success"}`
    | ValidationErrors(errors: seq<string>) // 400, `{"errors":[...]}`
    | InvalidBody                         // 400, `{"error":"Invalid request body"}`

  /** The wrapper resolves with a response or rejects with the handler's exception. */
  datatype Outcome<R> = Resolves(response: Response<R>) | Rejects

  /** `result || {statusCode: 200, ... 'Success'}`. */
  function OrSuccess<R>(h: HandlerOutcome<R>): Response<R>
    requires !h.Throws?
  {
    if h.Returns? then FromHandler(h.response) else Success
  }

  /** `event.body || '{}'`. */
  function BodyText(body: Option<string>): string {
    if body == None || body == Some("") then "{}" else body.value
  }

  /** The error list of the parsed body; `None` when parsing, a field read or a validator throws. */
  function Checked(rules: seq<Rule>, body: Option<string>, parse: string -> Option<Value>): Option<seq<string>> {
    match parse(BodyText(body))
    case None => None
    case Some(v) => ErrorsOf(rules, v)
  }

  /**
    `validateBody(rules)(handler)` on one event; the second component says whether the
    handler was called.
   */
  function Validated<R>(rules: seq<Rule>, httpMethod: string, body: Option<string>,
                        parse: string -> Option<Value>, handler: HandlerOutcome<R>): (r: (Outcome<R>, bool))
    // The handler runs for every non-POST request, and for a POST exactly when all rules pass.
    ensures r.1 <==> httpMethod != "POST" || Checked(rules, body, parse) == Some([])
    // Only a non-POST handler's exception escapes; on POST every failure becomes a 400.
    ensures r.0 == Rejects <==> httpMethod != "POST" && handler.Throws?
    // A POST that throws before the handler gets "Invalid request body"; failing fields get their list.
    ensures httpMethod == "POST" && !r.1 ==>
              (if Checked(rules, body, parse).None? then r.0 == Resolves(InvalidBody)
               else r.0 == Resolves(ValidationErrors(Checked(rules, body, parse).value))
                    && Checked(rules, body, parse).value != [])
    ensures httpMethod == "POST" && r.1 && handler.Throws? ==> r.0 == Resolves(InvalidBody)
    ensures r.1 && !handler.Throws? ==> r.0 == Resolves(OrSuccess(handler))
  {
    if httpMethod != "POST" then
      (if handler.Throws? then Rejects else Resolves(OrSuccess(handler)), true)
    else
      match Checked(rules, body, parse)
      case None => (Resolves(InvalidBody), false)
      case Some(errors) =>
        if |errors| > 0 then (Resolves(ValidationErrors(errors)), false)
        else if handler.Throws? then (Resolves(InvalidBody), true)
        else (Resolves(OrSuccess(handler)), true)
  }

  /** The wrapper, running the rules with `CollectErrors`. */
  method ValidateBody<R>(rules: seq<Rule>, httpMethod: string, body: Option<string>,
                         parse: string -> Option<Value>, handler: HandlerOutcome<R>)
    returns (out: Outcome<R>, called: bool)
    ensures (out, called) == Validated(rules, httpMethod, body, parse, handler)
  {
    if httpMethod != "POST" {
      called := true;
      if handler.Throws? {
        out := Rejects;
      } else {
        out := Resolves(OrSuccess(handler));
      }
      return;
    }
    var parsed := parse(BodyText(body));
    if parsed.None? {
      return Resolves(InvalidBody), false;
    }
    var errors := CollectErrors(rules, parsed.value);
    if errors.None? {
      return Resolves(InvalidBody), false;
    }
    if |errors.value| > 0 {
      return Resolves(ValidationErrors(errors.value)), false;
    }
    called := true;
    if handler.Throws? {
      out := Resolves(InvalidBody);
    } else {
      out := Resolves(OrSuccess(handler));
    }
  }

  // ---------------------------------------------------------------------------
  // The messages endpoint's rules

  /** The rules the messages endpoint validates its POST body with; `&&` skips the second test. */
  function MessageRules(): seq<Rule> {
    [ Rule("name", v => Some(Required(v))),
      Rule("email", v => if Required(v) then Email(v) else Some(false)),
      Rule("message", v => if Required(v) then MinLength(10, v) else Some(false)) ]
  }

  /** A POST without a body, read as `{}`, fails every message rule, in order. */
  lemma EmptyMessageBodyFailsAll()
    ensures ErrorsOf(MessageRules(), Obj(map[])) == Some(["Invalid name", "Invalid email", "Invalid message"])
  {
    var rules := MessageRules();
    var body := Obj(map[]);
    assert forall k :: 0 <= k < 3 ==> Lookup(body, rules[k].field) == Some(Undefined);
    ErrorsOfSnoc([], rules[0], body, []);
    assert [] + [rules[0]] == [rules[0]];
    assert [] + [ErrorFor("name")] == [ErrorFor("name")];
    ErrorsOfSnoc([rules[0]], rules[1], body, [ErrorFor("name")]);
    assert [rules[0]] + [rules[1]] == [rules[0], rules[1]];
    assert [ErrorFor("name")] + [ErrorFor("email")] == [ErrorFor("name"), ErrorFor("email")];
    ErrorsOfSnoc([rules[0], rules[1]], rules[2], body, [ErrorFor("name"), ErrorFor("email")]);
    assert [rules[0], rules[1]] + [rules[2]] == rules;
    assert [ErrorFor("name"), ErrorFor("email")] + [ErrorFor("message")]
           == [ErrorFor("name"), ErrorFor("email"), ErrorFor("message")];
    assert ErrorFor("name") == "Invalid name" && ErrorFor("email") == "Invalid email";
    assert ErrorFor("message") == "Invalid message";
  }

  /** The address `ada@example.com` passes `email`. */
  lemma SampleAddressIsEmail()
    ensures EmailString("ada@example.com")
  {
    var s := "ada@example.com";
    assert PlainBetween(s, 0, 3) && PlainBetween(s, 4, 11) && PlainBetween(s, 12, |s|);
    assert s[3] == '@' && s[11] == '.';
  }

  /** What each message rule answers when the field is a string. */
  lemma MessageRulesOnStrings(s: string)
    ensures MessageRules()[0].check(Str(s)) == Some(s != "")
    ensures MessageRules()[1].check(Str(s)) == Some(s != "" && EmailString(s))
    ensures MessageRules()[2].check(Str(s)) == Some(|s| >= 10)
  {
  }

  /** The body the messages form posts, with its three string fields. */
  function MessageBody(name: string, email: string, message: string): (r: Value)
    ensures Lookup(r, "name") == Some(Str(name))
    ensures Lookup(r, "email") == Some(Str(email))
    ensures Lookup(r, "message") == Some(Str(message))
  {
    assert "name"[0] != "email"[0] && "name"[0] != "message"[0] && "email"[0] != "message"[0];
    Obj(map["name" := Str(name), "email" := Str(email), "message" := Str(message)])
  }

  /** A body with a name, a valid address and a message of ten characters or more passes every rule. */
  lemma WellFormedMessagePasses(name: string, email: string, message: string)
    requires name != "" && EmailString(email) && |message| >= 10
    ensures ErrorsOf(MessageRules(), MessageBody(name, email, message)) == Some([])
  {
    var rules := MessageRules();
    var body := MessageBody(name, email, message);
    MessageRulesOnStrings(name);
    MessageRulesOnStrings(email);
    MessageRulesOnStrings(message);
    assert PassesOn(body)(rules[0]) && PassesOn(body)(rules[1]) && PassesOn(body)(rules[2]);
    forall k | 0 <= k < |rules| ensures PassesOn(body)(rules[k]) {
      if k == 0 {} else if k == 1 {} else {}
    }
    NoErrorsIffAllPass(rules, body);
  }

  /**
    A POST whose email field is an object with its own `toString` makes `email` throw,
    so the wrapper answers "Invalid request body" without calling the handler.
   */
  lemma ThrowingEmailIsInvalidBody<R>(body: Option<string>, parse: string -> Option<Value>, handler: HandlerOutcome<R>)
    requires parse(BodyText(body)) == Some(Obj(map["name" := Str("a"), "email" := Obj(map["toString" := Num(1)])]))
    ensures Validated(MessageRules(), "POST", body, parse, handler) == (Resolves(InvalidBody), false)
  {
    var v := Obj(map["name" := Str("a"), "email" := Obj(map["toString" := Num(1)])]);
    var rules := MessageRules();
    assert Lookup(v, "email") == Some(Obj(map["toString" := Num(1)]));
    assert Required(Obj(map["toString" := Num(1)]));
    EmailThrowsOnToStringField(map["toString" := Num(1)]);
    assert ThrowsOn(v)(rules[1]);
    assert ErrorsOf(rules, v) == None;
  }

  /**
    A message field that is an object whose `length` is the string `"12"` passes
    `minLength(10)`, as the comparison converts the string to a number.
   */
  lemma StringLengthFieldPassesMessage(name: string, email: string)
    requires name != "" && EmailString(email)
    ensures ErrorsOf(MessageRules(),
                     Obj(map["name" := Str(name), "email" := Str(email), "message" := Obj(map["length" := Str("12")])]))
            == Some([])
  {
    var m := Obj(map["length" := Str("12")]);
    var body := Obj(map["name" := Str(name), "email" := Str(email), "message" := m]);
    var rules := MessageRules();
    assert AllDigits("12") && DigitsValue("12") == 12 by {
      assert "12"[..1] == "1";
    }
    assert MinLength(10, m) == Some(true) by {
      LengthFieldConverted("12", 10);
    }
    assert rules[2].check(m) == Some(true) by {
      assert Required(m);
    }
    assert "name"[0] != "email"[0] && "name"[0] != "message"[0] && "email"[0] != "message"[0];
    assert Lookup(body, "message") == Some(m);
    assert Lookup(body, "name") == Some(Str(name)) && Lookup(body, "email") == Some(Str(email));
    MessageRulesOnStrings(name);
    MessageRulesOnStrings(email);
    assert PassesOn(body)(rules[0]) && PassesOn(body)(rules[1]) && PassesOn(body)(rules[2]);
    forall k | 0 <= k < |rules| ensures PassesOn(body)(rules[k]) {
      if k == 0 {} else if k == 1 {} else {}
    }
    AllPassNoErrors(rules, body);
  }
}
