/**
  `JSON.stringify` of the parameter array the query layer binds to SQL placeholders,
  for the scalar values those arrays hold: `undefined`, `null`, booleans,
  integer-valued numbers and strings. Inside an array `undefined` is written as
  `null`, and strings are quoted with the escapes of the ECMAScript `QuoteJSONString`
  operation.

  `ReadParams` is a reader for exactly this output. It is the inverse that shows the
  serialisation loses nothing but the difference between `undefined` and `null`.
 */
module Json {
  import opened Optional
  import opened Strings

  /** A bind parameter as `JSON.stringify` sees it. */
  datatype Param = Undefined | Null | Bool(b: bool) | Num(n: int) | Str(s: string)

  /** Lowercase hexadecimal digit, as `QuoteJSONString` writes them. */
  function HexDigit(d: nat): (c: char)
    requires d < 16
    ensures HexValue(c) == Some(d)
  {
    if d < 10 then ('0' as int + d) as char else ('a' as int + d - 10) as char
  }

  function HexValue(c: char): Option<nat> {
    if '0' <= c <= '9' then Some(c as int - '0' as int)
    else if 'a' <= c <= 'f' then Some(c as int - 'a' as int + 10)
    else None
  }

  /**
    One character of a string literal: quote and backslash are escaped, the five
    control characters with a short escape get it, the other control characters
    become `\u00xx`, and everything else is written as is.
   */
  function EscapeChar(c: char): (r: string)
    ensures |r| > 0 && r[0] != '"'
  {
    if c == '"' then "\\\""
    else if c == '\\' then "\\\\"
    else if c as int == 0x08 then "\\b"
    else if c as int == 0x09 then "\\t"
    else if c as int == 0x0A then "\\n"
    else if c as int == 0x0C then "\\f"
    else if c as int == 0x0D then "\\r"
    else if c as int < 0x20 then "\\u00" + [HexDigit(c as int / 16), HexDigit(c as int % 16)]
    else [c]
  }

  function Escape(s: string): string {
    if s == [] then "" else EscapeChar(s[0]) + Escape(s[1..])
  }

  function Quote(s: string): string {
    "\"" + Escape(s) + "\""
  }

  /** One array element. */
  function ElementJson(p: Param): (r: string)
    ensures r != []
  {
    match p
    case Undefined => "null"
    case Null => "null"
    case Bool(b) => if b then "true" else "false"
    case Num(n) => IntToString(n)
    case Str(s) => Quote(s)
  }

  /** The elements separated by commas. */
  function ElementsJson(ps: seq<Param>): string {
    if |ps| == 0 then ""
    else if |ps| == 1 then ElementJson(ps[0])
    else ElementJson(ps[0]) + "," + ElementsJson(ps[1..])
  }

  /** `JSON.stringify(params)`: an array literal, read back by `ReadParams` (see `ReadParamsJson`). */
  function ParamsJson(ps: seq<Param>): (r: string)
    ensures |r| >= 2 && r[0] == '[' && r[|r| - 1] == ']'
    ensures ps == [] <==> r == "[]"
  {
    assert ps != [] ==> |ElementsJson(ps)| > 0 by {
      if ps != [] { assert |ElementJson(ps[0])| > 0; }
    }
    "[" + ElementsJson(ps) + "]"
  }

  /** What a serialised parameter reads back as: `undefined` was written as `null`. */
  function Canon(p: Param): Param {
    if p == Undefined then Null else p
  }

  function Canonical(ps: seq<Param>): (r: seq<Param>)
    ensures |r| == |ps|
  {
    if ps == [] then [] else [Canon(ps[0])] + Canonical(ps[1..])
  }

  // ---------------------------------------------------------------------------
  // Reading the serialisation back

  /** One character of string content and how many characters its notation takes. */
  function DecodeChar(t: string): (r: Option<(char, nat)>)
    ensures r.Some? ==> 1 <= r.value.1 <= |t|
  {
    if t == [] then None
    else if t[0] != '\\' then Some((t[0], 1))
    else if |t| < 2 then None
    else if t[1] == '"' then Some(('"', 2))
    else if t[1] == '\\' then Some(('\\', 2))
    else if t[1] == 'b' then Some((0x08 as char, 2))
    else if t[1] == 't' then Some((0x09 as char, 2))
    else if t[1] == 'n' then Some((0x0A as char, 2))
    else if t[1] == 'f' then Some((0x0C as char, 2))
    else if t[1] == 'r' then Some((0x0D as char, 2))
    else if t[1] == 'u' && |t| >= 6 && t[2] == '0' && t[3] == '0'
            && HexValue(t[4]).Some? && HexValue(t[5]).Some? then
      Some(((HexValue(t[4]).value * 16 + HexValue(t[5]).value) as char, 6))
    else None
  }

  /** The content of a string literal up to its closing quote, and what follows it. */
  function ReadString(t: string): (r: Option<(string, string)>)
    ensures r.Some? ==> |r.value.1| < |t|
    decreases |t|
  {
    if t == [] then None
    else if t[0] == '"' then Some(([], t[1..]))
    else match DecodeChar(t)
      case None => None
      case Some((c, n)) =>
        match ReadString(t[n..])
        case None => None
        case Some((s, rest)) => Some(([c] + s, rest))
  }

  /** A run of decimal digits and what follows it. */
  function ReadNat(t: string): (r: Option<(nat, string)>)
    ensures r.Some? ==> |r.value.1| < |t|
  {
    var n := LeadingDigits(t);
    if n == 0 then None else Some((DigitsValue(t[..n]), t[n..]))
  }

  /** One element and what follows it. */
  function ReadElement(t: string): (r: Option<(Param, string)>)
    ensures r.Some? ==> |r.value.1| < |t|
  {
    if t == [] then None
    else if t[0] == 'n' then (if StartsWith(t, "null") then Some((Null, t[4..])) else None)
    else if t[0] == 't' then (if StartsWith(t, "true") then Some((Bool(true), t[4..])) else None)
    else if t[0] == 'f' then (if StartsWith(t, "false") then Some((Bool(false), t[5..])) else None)
    else if t[0] == '"' then
      match ReadString(t[1..])
      case None => None
      case Some((s, rest)) => Some((Str(s), rest))
    else if t[0] == '-' then
      match ReadNat(t[1..])
      case None => None
      case Some((v, rest)) => Some((Num(-(v as int)), rest))
    else
      match ReadNat(t)
      case None => None
      case Some((v, rest)) => Some((Num(v), rest))
  }

  /** Comma-separated elements up to the closing bracket, which must end the text. */
  function ReadElements(t: string): Option<seq<Param>>
    decreases |t|
  {
    match ReadElement(t)
    case None => None
    case Some((p, rest)) =>
      if rest == "]" then Some([p])
      else if rest != [] && rest[0] == ',' then
        match ReadElements(rest[1..])
        case None => None
        case Some(ps) => Some([p] + ps)
      else None
  }

  function ReadParams(j: string): Option<seq<Param>> {
    if j == "[]" then Some([])
    else if j != [] && j[0] == '[' then ReadElements(j[1..])
    else None
  }

  // ---------------------------------------------------------------------------
  // Round trip

  lemma DecodeEscapedChar(c: char, u: string)
    ensures DecodeChar(EscapeChar(c) + u) == Some((c, |EscapeChar(c)|))
  {
    var e := EscapeChar(c);
    assert (e + u)[..|e|] == e;
    if c as int < 0x20 && c as int !in {0x08, 0x09, 0x0A, 0x0C, 0x0D} {
      assert (e + u)[4] == HexDigit(c as int / 16) && (e + u)[5] == HexDigit(c as int % 16);
      assert (c as int / 16 * 16 + c as int % 16) as char == c;
    }
  }

  /** The content of a quoted literal reads back as the original string. */
  lemma {:induction false} ReadEscaped(s: string, t: string)
    ensures ReadString(Escape(s) + "\"" + t) == Some((s, t))
    decreases |s|
  {
    if s == [] {
      assert Escape(s) + "\"" + t == "\"" + t;
    } else {
      ReadEscaped(s[1..], t);
      ReadEscapedStep(s, t);
    }
  }

  lemma ReadEscapedStep(s: string, t: string)
    requires s != [] && ReadString(Escape(s[1..]) + "\"" + t) == Some((s[1..], t))
    ensures ReadString(Escape(s) + "\"" + t) == Some((s, t))
  {
    var e := EscapeChar(s[0]);
    var u := Escape(s[1..]) + "\"" + t;
    DecodeEscapedChar(s[0], u);
    ReadStringCons(e, u, s[0], s[1..], t);
    assert Escape(s) + "\"" + t == e + u;
    assert [s[0]] + s[1..] == s;
  }

  /** Reading a literal that starts with one encoded character. */
  lemma ReadStringCons(e: string, u: string, c: char, s: string, t: string)
    requires e != [] && e[0] != '"' && DecodeChar(e + u) == Some((c, |e|)) && ReadString(u) == Some((s, t))
    ensures ReadString(e + u) == Some(([c] + s, t))
  {
    assert (e + u)[0] == e[0];
    assert (e + u)[|e|..] == u;
  }

  /** Something that may follow an element inside the array. */
  predicate Delimited(t: string) {
    t != [] && (t[0] == ',' || t[0] == ']')
  }

  lemma ReadNatString(v: nat, t: string)
    requires Delimited(t)
    ensures ReadNat(NatToString(v) + t) == Some((v, t))
  {
    var x := NatToString(v);
    LeadingDigitsOf(x, t);
    assert (x + t)[..|x|] == x && (x + t)[|x|..] == t;
    NatToStringValue(v);
  }

  lemma ReadElementJson(p: Param, t: string)
    requires Delimited(t)
    ensures ReadElement(ElementJson(p) + t) == Some((Canon(p), t))
  {
    match p {
      case Undefined => ReadNullJson(t);
      case Null => ReadNullJson(t);
      case Bool(b) => ReadBoolJson(b, t);
      case Num(n) => ReadNumJson(n, t);
      case Str(s) => ReadStrJson(s, t);
    }
  }

  lemma ReadNullJson(t: string)
    ensures ReadElement("null" + t) == Some((Null, t))
  {
    assert ("null" + t)[..4] == "null" && ("null" + t)[4..] == t;
  }

  lemma ReadBoolJson(b: bool, t: string)
    ensures ReadElement(ElementJson(Bool(b)) + t) == Some((Bool(b), t))
  {
    if b {
      assert ("true" + t)[..4] == "true" && ("true" + t)[4..] == t;
      assert ("true" + t)[0] == 't';
    } else {
      assert ("false" + t)[..5] == "false" && ("false" + t)[5..] == t;
      assert ("false" + t)[0] == 'f';
    }
  }

  lemma ReadNumJson(n: int, t: string)
    requires Delimited(t)
    ensures ReadElement(IntToString(n) + t) == Some((Num(n), t))
  {
    if n < 0 {
      var x := NatToString(-n) + t;
      assert IntToString(n) + t == "-" + x;
      ReadNatString(-n, t);
      ReadNegative(x, -n, t);
    } else {
      var x := NatToString(n) + t;
      assert x[0] == NatToString(n)[0];
      ReadNatString(n, t);
      ReadNonNegative(x, n, t);
    }
  }

  lemma ReadNegative(x: string, v: nat, t: string)
    requires ReadNat(x) == Some((v, t))
    ensures ReadElement("-" + x) == Some((Num(-(v as int)), t))
  {
    assert ("-" + x)[0] == '-' && ("-" + x)[1..] == x;
  }

  lemma ReadNonNegative(x: string, v: nat, t: string)
    requires x != [] && IsDigit(x[0])
    requires ReadNat(x) == Some((v, t))
    ensures ReadElement(x) == Some((Num(v), t))
  {
  }

  lemma ReadStrJson(s: string, t: string)
    ensures ReadElement(Quote(s) + t) == Some((Str(s), t))
  {
    var e := Quote(s);
    assert (e + t)[0] == '"';
    assert (e + t)[1..] == Escape(s) + "\"" + t;
    ReadEscaped(s, t);
  }

  lemma {:induction false} ReadElementsJson(ps: seq<Param>)
    requires ps != []
    ensures ReadElements(ElementsJson(ps) + "]") == Some(Canonical(ps))
    decreases |ps|
  {
    var p := Canon(ps[0]);
    if |ps| == 1 {
      ReadElementJson(ps[0], "]");
      ReadElementsLast(ElementJson(ps[0]) + "]", p);
      assert Canonical(ps) == [p];
    } else {
      var tail := ElementsJson(ps[1..]) + "]";
      var rest := "," + tail;
      Regroup4(ElementJson(ps[0]), ",", ElementsJson(ps[1..]), "]");
      ReadElementJson(ps[0], rest);
      ReadElementsJson(ps[1..]);
      assert rest[1..] == tail;
      ReadElementsCons(ElementJson(ps[0]) + rest, p, rest, Canonical(ps[1..]));
      assert Canonical(ps) == [p] + Canonical(ps[1..]);
    }
  }

  /** Reading an element followed by the closing bracket. */
  lemma ReadElementsLast(t: string, p: Param)
    requires ReadElement(t) == Some((p, "]"))
    ensures ReadElements(t) == Some([p])
  {
  }

  /** Reading an element followed by a comma and further elements. */
  lemma ReadElementsCons(t: string, p: Param, rest: string, ps: seq<Param>)
    requires ReadElement(t) == Some((p, rest))
    requires rest != [] && rest[0] == ',' && ReadElements(rest[1..]) == Some(ps)
    ensures ReadElements(t) == Some([p] + ps)
  {
    assert rest != "]";
  }

  lemma Regroup4(a: string, b: string, c: string, d: string)
    ensures a + b + c + d == a + (b + (c + d))
  {
  }

  /** Round trip: the serialised array reads back as the parameters, `undefined` as `null`. */
  lemma ReadParamsJson(ps: seq<Param>)
    ensures ReadParams(ParamsJson(ps)) == Some(Canonical(ps))
  {
    if ps != [] {
      var body := ElementsJson(ps) + "]";
      assert ParamsJson(ps) == "[" + body;
      assert ("[" + body)[1..] == body;
      assert ElementsJson(ps) != [] by {
        assert ElementJson(ps[0]) != [];
      }
      assert body != "]";
      ReadElementsJson(ps);
    }
  }

  /** `null` and `undefined` parameters serialise alike. */
  lemma {:induction false} ParamsJsonCanonical(ps: seq<Param>)
    ensures ElementsJson(Canonical(ps)) == ElementsJson(ps)
    decreases |ps|
  {
    if |ps| > 1 {
      ParamsJsonCanonical(ps[1..]);
      assert Canonical(ps)[1..] == Canonical(ps[1..]);
    }
  }

  /** Two parameter arrays serialise alike exactly when they agree up to `undefined` versus `null`. */
  lemma ParamsJsonInjective(p1: seq<Param>, p2: seq<Param>)
    ensures ParamsJson(p1) == ParamsJson(p2) <==> Canonical(p1) == Canonical(p2)
  {
    ReadParamsJson(p1);
    ReadParamsJson(p2);
    ParamsJsonCanonical(p1);
    ParamsJsonCanonical(p2);
  }
}
