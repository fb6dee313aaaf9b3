/** JSON texts (RFC 8259) of the values a serialized tree is made of: a parser
    for them, a compact text, and the theorem that one reads the other. */
module Json {
  import opened Options

  datatype Field = Field(name: string, value: Value)

  datatype Value = Null | Str(s: string) | Arr(items: seq<Value>) | Obj(fields: seq<Field>)

  // ---- a parser --------------------------------------------------------------------------

  datatype Parsed<T> = Fail | Got(value: T, rest: string)

  predicate Space(c: char) {
    c == ' ' || c == '\t' || c == '\n' || c == '\r'
  }

  function Trimmed(s: string): (r: string)
    ensures |r| <= |s|
  {
    if s != "" && Space(s[0]) then Trimmed(s[1..]) else s
  }

  function HexValue(c: char): Option<nat> {
    if '0' <= c <= '9' then Some(c as nat - '0' as nat)
    else if 'a' <= c <= 'f' then Some(c as nat - 'a' as nat + 10)
    else if 'A' <= c <= 'F' then Some(c as nat - 'A' as nat + 10)
    else None
  }

  /** Four hexadecimal digits. */
  function Hex4(s: string): Option<nat>
    requires |s| >= 4
  {
    match (HexValue(s[0]), HexValue(s[1]), HexValue(s[2]), HexValue(s[3]))
    case (Some(a), Some(b), Some(c), Some(d)) => Some(((a * 16 + b) * 16 + c) * 16 + d)
    case _ => None
  }

  /** The character of an escape and the length of the escape (section 7); a
      `\u` escape of a surrogate is not read. */
  function Escape(s: string): (r: Option<(char, nat)>)
    requires s != "" && s[0] == '\\'
    ensures r.Some? ==> 0 < r.value.1 <= |s|
  {
    if |s| < 2 then None
    else if s[1] == '"' || s[1] == '\\' || s[1] == '/' then Some((s[1], 2))
    else if s[1] == 'b' then Some((8 as char, 2))
    else if s[1] == 'f' then Some((12 as char, 2))
    else if s[1] == 'n' then Some(('\n', 2))
    else if s[1] == 'r' then Some(('\r', 2))
    else if s[1] == 't' then Some(('\t', 2))
    else if s[1] == 'u' && |s| >= 6 && Hex4(s[2..]).Some? && Hex4(s[2..]).value < 0xD800 then
      Some((Hex4(s[2..]).value as char, 6))
    else None
  }

  /** What follows the opening quote, up to the closing one. */
  function ParseChars(s: string): (r: Parsed<string>)
    ensures r.Got? ==> |r.rest| < |s|
    decreases |s|
  {
    if s == "" then Fail
    else if s[0] == '"' then Got("", s[1..])
    else if s[0] == '\\' then
      match Escape(s)
      case None => Fail
      case Some((c, n)) =>
        (match ParseChars(s[n..])
         case Fail => Fail
         case Got(cs, rest) => Got([c] + cs, rest))
    else if s[0] < ' ' then Fail
    else
      match ParseChars(s[1..])
      case Fail => Fail
      case Got(cs, rest) => Got([s[0]] + cs, rest)
  }

  function ParseString(s: string): (r: Parsed<string>)
    ensures r.Got? ==> |r.rest| < |s|
  {
    if s != "" && s[0] == '"' then ParseChars(s[1..]) else Fail
  }

  function ParseValue(text: string): (r: Parsed<Value>)
    ensures r.Got? ==> |r.rest| < |text|
    decreases |text|, 2
  {
    var s := Trimmed(text);
    if s == "" then Fail
    else if s[0] == '"' then
      match ParseString(s)
      case Fail => Fail
      case Got(v, rest) => Got(Str(v), rest)
    else if s[0] == '[' then
      var t := Trimmed(s[1..]);
      if t != "" && t[0] == ']' then Got(Arr([]), t[1..])
      else
        match ParseItems(s[1..])
        case Fail => Fail
        case Got(items, rest) => Got(Arr(items), rest)
    else if s[0] == '{' then
      var t := Trimmed(s[1..]);
      if t != "" && t[0] == '}' then Got(Obj([]), t[1..])
      else
        match ParseFields(s[1..])
        case Fail => Fail
        case Got(fields, rest) => Got(Obj(fields), rest)
    else if "null" <= s then Got(Null, s[4..])
    else Fail
  }

  /** One or more values, up to the closing bracket. */
  function ParseItems(s: string): (r: Parsed<seq<Value>>)
    ensures r.Got? ==> |r.rest| < |s|
    decreases |s|, 3
  {
    match ParseValue(s)
    case Fail => Fail
    case Got(v, more) =>
      var t := Trimmed(more);
      if t != "" && t[0] == ']' then Got([v], t[1..])
      else if t != "" && t[0] == ',' then
        match ParseItems(t[1..])
        case Fail => Fail
        case Got(vs, rest) => Got([v] + vs, rest)
      else Fail
  }

  /** One or more `"name": value`, up to the closing brace. */
  function ParseFields(s: string): (r: Parsed<seq<Field>>)
    ensures r.Got? ==> |r.rest| < |s|
    decreases |s|, 3
  {
    match ParseField(s)
    case Fail => Fail
    case Got(f, more) =>
      var t := Trimmed(more);
      if t != "" && t[0] == '}' then Got([f], t[1..])
      else if t != "" && t[0] == ',' then
        match ParseFields(t[1..])
        case Fail => Fail
        case Got(fs, rest) => Got([f] + fs, rest)
      else Fail
  }

  function ParseField(s: string): (r: Parsed<Field>)
    ensures r.Got? ==> |r.rest| < |s|
    decreases |s|, 1
  {
    match ParseString(Trimmed(s))
    case Fail => Fail
    case Got(name, more) =>
      var t := Trimmed(more);
      if t == "" || t[0] != ':' then Fail
      else
        match ParseValue(t[1..])
        case Fail => Fail
        case Got(v, rest) => Got(Field(name, v), rest)
  }

  /** A whole text: one value and nothing after it. */
  function Parse(text: string): Option<Value> {
    match ParseValue(text)
    case Fail => None
    case Got(v, rest) => if Trimmed(rest) == "" then Some(v) else None
  }

  // ---- the compact text --------------------------------------------------------------------

  function HexDigit(n: nat): char
    requires n < 16
  {
    if n < 10 then '0' + n as char else 'a' + (n - 10) as char
  }

  /** How a character is written inside a string. */
  function Escaped(c: char): string {
    if c == '"' then "\\\""
    else if c == '\\' then "\\\\"
    else if c == '\n' then "\\n"
    else if c == '\r' then "\\r"
    else if c == '\t' then "\\t"
    else if c < ' ' then "\\u00" + [HexDigit(c as nat / 16), HexDigit(c as nat % 16)]
    else [c]
  }

  function EscapedAll(s: string): string {
    if s == "" then "" else Escaped(s[0]) + EscapedAll(s[1..])
  }

  function Quoted(s: string): string {
    "\"" + EscapedAll(s) + "\""
  }

  function Text(v: Value): (r: string)
    ensures r != ""
    decreases v, 0
  {
    match v
    case Null => "null"
    case Str(s) => Quoted(s)
    case Arr(items) => "[" + ItemsText(items) + "]"
    case Obj(fields) => "{" + FieldsText(fields) + "}"
  }

  function ItemsText(items: seq<Value>): string
    decreases items, 1
  {
    if items == [] then ""
    else if |items| == 1 then Text(items[0])
    else Text(items[0]) + "," + ItemsText(items[1..])
  }

  function FieldText(f: Field): string
    decreases f, 1
  {
    Quoted(f.name) + ":" + Text(f.value)
  }

  function FieldsText(fields: seq<Field>): string
    decreases fields, 2
  {
    if fields == [] then ""
    else if |fields| == 1 then FieldText(fields[0])
    else FieldText(fields[0]) + "," + FieldsText(fields[1..])
  }

  // ---- the parser reads the text -----------------------------------------------------------

  lemma HexRoundTrip(n: nat)
    requires n < 16
    ensures HexValue(HexDigit(n)) == Some(n)
  {
  }

  lemma ShortIsRead(c: char, more: string)
    requires |Escaped(c)| == 2
    ensures Escape(Escaped(c) + more) == Some((c, 2))
  {
  }

  /** One escaped character is read back, whatever follows. */
  lemma EscapedIsRead(c: char, more: string)
    ensures ParseChars(Escaped(c) + more) ==
            match ParseChars(more) case Fail => Fail case Got(cs, rest) => Got([c] + cs, rest)
  {
    var e := Escaped(c);
    assert (e + more)[|e|..] == more;
    if |e| == 1 {
      assert (e + more)[0] == c;
    } else {
      hide Escape;
      assert (e + more)[0] == '\\';
      if |e| == 6 {
        ControlIsRead(c, more);
      } else {
        ShortIsRead(c, more);
      }
    }
  }

  lemma ControlIsRead(c: char, more: string)
    requires |Escaped(c)| == 6
    ensures Escape(Escaped(c) + more) == Some((c, 6))
  {
    var t, n := Escaped(c) + more, c as nat;
    HexRoundTrip(n / 16);
    HexRoundTrip(n % 16);
    assert t[2] == '0' && t[3] == '0' && t[4] == HexDigit(n / 16) && t[5] == HexDigit(n % 16);
    assert Hex4(t[2..]) == Some(n);
  }

  lemma QuoteEnds(rest: string)
    ensures ParseChars("\"" + rest) == Got("", rest)
  {
    assert ("\"" + rest)[1..] == rest;
  }

  lemma {:induction false} CharsRoundTrip(s: string, rest: string)
    ensures ParseChars(EscapedAll(s) + ("\"" + rest)) == Got(s, rest)
    decreases |s|
  {
    hide ParseChars, Escaped;
    var end := "\"" + rest;
    if s == "" {
      assert EscapedAll(s) + end == end;
      QuoteEnds(rest);
    } else {
      CharsRoundTrip(s[1..], rest);
      assert EscapedAll(s) + end == Escaped(s[0]) + (EscapedAll(s[1..]) + end);
      EscapedIsRead(s[0], EscapedAll(s[1..]) + end);
      assert [s[0]] + s[1..] == s;
    }
  }

  lemma StringRoundTrip(s: string, rest: string)
    ensures ParseString(Quoted(s) + rest) == Got(s, rest)
  {
    hide ParseChars, EscapedAll;
    CharsRoundTrip(s, rest);
    var t := Quoted(s) + rest;
    assert t[1..] == EscapedAll(s) + ("\"" + rest);
  }

  /** A text starts with no white space and no closing bracket. */
  lemma TextStarts(v: Value)
    ensures Text(v)[0] in {'n', '"', '[', '{'}
  {
  }

  lemma StartsSolid(t: string, more: string)
    requires t != "" && !Space(t[0])
    ensures Trimmed(t + more) == t + more && (t + more)[0] == t[0]
  {
  }

  /** A value's text is read as that value, whatever follows. */
  lemma {:induction false} ValueRoundTrip(v: Value, rest: string)
    ensures ParseValue(Text(v) + rest) == Got(v, rest)
    decreases v, 0
  {
    StartsSolid(Text(v), rest);
    match v {
      case Null =>
        assert (Text(v) + rest)[4..] == rest;
      case Str(s) =>
        StringRoundTrip(s, rest);
      case Arr(items) =>
        if items == [] {
          EmptyArrayRead(rest);
        } else {
          ItemsRoundTrip(items, rest);
          ArrayRead(items, rest);
        }
      case Obj(fields) =>
        if fields == [] {
          EmptyObjectRead(rest);
        } else {
          FieldsRoundTrip(fields, rest);
          ObjectRead(fields, rest);
        }
    }
  }

  lemma EmptyArrayRead(rest: string)
    ensures ParseValue(Text(Arr([])) + rest) == Got(Arr([]), rest)
  {
    hide ParseItems;
    var t := Text(Arr([])) + rest;
    assert t == "[" + ("]" + rest);
    assert t[1..] == "]" + rest && ("]" + rest)[1..] == rest;
  }

  lemma ArrayRead(items: seq<Value>, rest: string)
    requires items != [] && ParseItems(ItemsText(items) + ("]" + rest)) == Got(items, rest)
    ensures ParseValue(Text(Arr(items)) + rest) == Got(Arr(items), rest)
  {
    hide ParseItems, ItemsText;
    var t, inside := Text(Arr(items)) + rest, ItemsText(items) + ("]" + rest);
    assert t == "[" + inside;
    assert t[1..] == inside;
    ItemsStart(items, "]" + rest);
  }

  lemma EmptyObjectRead(rest: string)
    ensures ParseValue(Text(Obj([])) + rest) == Got(Obj([]), rest)
  {
    hide ParseFields;
    var t := Text(Obj([])) + rest;
    assert t == "{" + ("}" + rest);
    assert t[1..] == "}" + rest && ("}" + rest)[1..] == rest;
  }

  lemma ObjectRead(items: seq<Field>, rest: string)
    requires items != [] && ParseFields(FieldsText(items) + ("}" + rest)) == Got(items, rest)
    ensures ParseValue(Text(Obj(items)) + rest) == Got(Obj(items), rest)
  {
    hide ParseFields, FieldsText;
    var t, inside := Text(Obj(items)) + rest, FieldsText(items) + ("}" + rest);
    assert t == "{" + inside;
    assert t[1..] == inside;
    FieldsStart(items, "}" + rest);
  }

  lemma ItemsStart(items: seq<Value>, more: string)
    requires items != []
    ensures var t := ItemsText(items) + more; t != "" && !Space(t[0]) && t[0] != ']' && Trimmed(t) == t
  {
    TextStarts(items[0]);
  }

  lemma FieldsStart(fields: seq<Field>, more: string)
    requires fields != []
    ensures var t := FieldsText(fields) + more; t != "" && !Space(t[0]) && t[0] != '}' && Trimmed(t) == t
  {
  }

  lemma LastItem(s: string, v: Value, rest: string)
    requires ParseValue(s) == Got(v, "]" + rest)
    ensures ParseItems(s) == Got([v], rest)
  {
    hide ParseValue;
    assert ("]" + rest)[1..] == rest;
  }

  lemma MoreItems(s: string, v: Value, more: string, vs: seq<Value>, rest: string)
    requires ParseValue(s) == Got(v, "," + more) && ParseItems(more) == Got(vs, rest)
    ensures ParseItems(s) == Got([v] + vs, rest)
  {
    hide ParseValue;
    assert ("," + more)[1..] == more;
  }

  lemma {:induction false} ItemsRoundTrip(items: seq<Value>, rest: string)
    requires items != []
    ensures ParseItems(ItemsText(items) + ("]" + rest)) == Got(items, rest)
    decreases items, 1
  {
    hide ParseValue, ParseItems;
    var end, whole := "]" + rest, ItemsText(items) + ("]" + rest);
    if |items| == 1 {
      ValueRoundTrip(items[0], end);
      assert whole == Text(items[0]) + end && [items[0]] == items;
      LastItem(whole, items[0], rest);
    } else {
      var more := ItemsText(items[1..]) + end;
      assert whole == Text(items[0]) + ("," + more);
      ValueRoundTrip(items[0], "," + more);
      ItemsRoundTrip(items[1..], rest);
      MoreItems(whole, items[0], more, items[1..], rest);
      assert [items[0]] + items[1..] == items;
    }
  }

  lemma {:induction false} FieldRoundTrip(f: Field, rest: string)
    ensures ParseField(FieldText(f) + rest) == Got(f, rest)
    decreases f, 1
  {
    var more := ":" + (Text(f.value) + rest);
    assert FieldText(f) + rest == Quoted(f.name) + more;
    StartsSolid(Quoted(f.name), more);
    StringRoundTrip(f.name, more);
    assert more[1..] == Text(f.value) + rest;
    ValueRoundTrip(f.value, rest);
  }

  lemma LastField(s: string, f: Field, rest: string)
    requires ParseField(s) == Got(f, "}" + rest)
    ensures ParseFields(s) == Got([f], rest)
  {
    hide ParseField;
    assert ("}" + rest)[1..] == rest;
  }

  lemma MoreFields(s: string, f: Field, more: string, fs: seq<Field>, rest: string)
    requires ParseField(s) == Got(f, "," + more) && ParseFields(more) == Got(fs, rest)
    ensures ParseFields(s) == Got([f] + fs, rest)
  {
    hide ParseField;
    assert ("," + more)[1..] == more;
  }

  lemma {:induction false} FieldsRoundTrip(fields: seq<Field>, rest: string)
    requires fields != []
    ensures ParseFields(FieldsText(fields) + ("}" + rest)) == Got(fields, rest)
    decreases fields, 2
  {
    hide ParseField, ParseFields, FieldText;
    var end, whole := "}" + rest, FieldsText(fields) + ("}" + rest);
    if |fields| == 1 {
      FieldRoundTrip(fields[0], end);
      assert whole == FieldText(fields[0]) + end && [fields[0]] == fields;
      LastField(whole, fields[0], rest);
    } else {
      var more := FieldsText(fields[1..]) + end;
      assert whole == FieldText(fields[0]) + ("," + more);
      FieldRoundTrip(fields[0], "," + more);
      FieldsRoundTrip(fields[1..], rest);
      MoreFields(whole, fields[0], more, fields[1..], rest);
      assert [fields[0]] + fields[1..] == fields;
    }
  }

  /** Parsing the text of a value gives the value back. */
  lemma TextRoundTrip(v: Value)
    ensures Parse(Text(v)) == Some(v)
  {
    ValueRoundTrip(v, "");
    assert Text(v) + "" == Text(v);
  }

  // ---- the text, spelled out ------------------------------------------------------------------

  /** Quotes, backslashes and control characters are escaped, the short way where there
      is one, and nothing else is (section 7). */
  lemma EscapesSpelled(c: char)
    ensures Escaped('"') == "\\\"" && Escaped('\\') == "\\\\" && Escaped('\n') == "\\n" && Escaped('\r') == "\\r"
    ensures Escaped('\t') == "\\t" && Escaped(1 as char) == "\\u0001" && Escaped(31 as char) == "\\u001f"
    ensures c >= ' ' && c != '"' && c != '\\' ==> Escaped(c) == [c]
  {
  }

  /** Arrays in brackets, objects in braces, commas between and colons after names,
      and no white space. */
  lemma TextSpelled(a: Value, b: Value, n: string)
    ensures Text(Null) == "null" && Text(Arr([])) == "[]" && Text(Obj([])) == "{}"
    ensures Text(Str(n)) == "\"" + EscapedAll(n) + "\""
    ensures Text(Arr([a, b])) == "[" + Text(a) + "," + Text(b) + "]"
    ensures Text(Obj([Field(n, a), Field(n, b)])) ==
            "{" + Quoted(n) + ":" + Text(a) + "," + Quoted(n) + ":" + Text(b) + "}"
  {
    hide EscapedAll;
    assert [a, b][1..] == [b];
    assert ItemsText([a, b]) == Text(a) + "," + Text(b);
    assert "[" + (Text(a) + "," + Text(b)) + "]" == "[" + Text(a) + "," + Text(b) + "]";
    FieldsSpelled(a, b, n);
  }

  lemma FieldsSpelled(a: Value, b: Value, n: string)
    ensures Text(Obj([Field(n, a), Field(n, b)])) ==
            "{" + Quoted(n) + ":" + Text(a) + "," + Quoted(n) + ":" + Text(b) + "}"
  {
    var x, y := Field(n, a), Field(n, b);
    var fields := [x, y];
    assert fields[1..] == [y];
    assert FieldsText([y]) == FieldText(y);
    assert FieldsText(fields) == FieldText(x) + "," + FieldText(y);
    FieldSpelled(x);
    FieldSpelled(y);
    assert Text(Obj(fields)) == "{" + FieldsText(fields) + "}";
    hide Text, EscapedAll, Quoted, FieldsText, FieldText;
    Regrouped("{", Quoted(n), ":", Text(a), ",", Text(b), "}");
  }

  lemma FieldSpelled(f: Field)
    ensures FieldText(f) == Quoted(f.name) + ":" + Text(f.value)
  {
  }

  lemma Regrouped(open: string, q: string, colon: string, x: string, comma: string, y: string, close: string)
    ensures open + (q + colon + x + comma + (q + colon + y)) + close ==
            open + q + colon + x + comma + q + colon + y + close
  {
    assert q + colon + x + comma + (q + colon + y) == q + colon + x + comma + q + colon + y;
    assert open + (q + colon + x + comma + q + colon + y) == open + q + colon + x + comma + q + colon + y;
  }
}
