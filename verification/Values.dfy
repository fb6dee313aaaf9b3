/** Stored values as the trees a structured clone yields, key paths evaluated on
    them, and the keys an index takes from a value. */
module Values {
  import opened ByteStrings
  import opened Doubles
  import opened Options
  import opened Keys
  import opened SortedSets

  /** A structured clone as a tree of its own properties. An array's items are its
      properties "0", "1", ...; a missing one is a hole. */
  datatype Js =
    | Undefined
    | Null
    | Boolean(b: bool)
    | Number(x: Double)
    | Text(units: seq<u16>)
    | DateValue(x: Double, props: map<string, Js>)
    | BufferValue(bytes: Bytes, props: map<string, Js>)
    | ArrayValue(length: nat, props: map<string, Js>)
    | ObjectValue(props: map<string, Js>)
  {
    predicate IsObject() {
      DateValue? || BufferValue? || ArrayValue? || ObjectValue?
    }
  }

  datatype KeyPath = NoPath | Path(path: string) | Paths(paths: seq<string>)

  datatype IndexDef = IndexDef(keyPath: KeyPath, unique: bool, multi: bool)

  function Decimal(n: nat): string {
    var digit := ['0' + (n % 10) as char];
    if n < 10 then digit else Decimal(n / 10) + digit
  }

  /** `path.split('.')` */
  function Idents(path: string): (r: seq<string>)
    ensures |r| > 0
  {
    if path == [] then [""]
    else
      var rest := Idents(path[1..]);
      if path[0] == '.' then [""] + rest else [[path[0]] + rest[0]] + rest[1..]
  }

  /** A length as a number; V8's lengths are far below 2^53. */
  function LengthNumber(n: nat): Js {
    Number(if n == 0 then 0 else OfNat(if n < TWO_53 then n else TWO_53))
  }

  /** What a path of identifiers leads to. */
  function EvalIdents(v: Js, idents: seq<string>): Option<Js>
    decreases |idents|
  {
    if idents == [] then Some(v)
    else if idents[0] == "length" && v.Text? then EvalIdents(LengthNumber(|v.units|), idents[1..])
    else if idents[0] == "length" && v.ArrayValue? then EvalIdents(LengthNumber(v.length), idents[1..])
    else if !v.IsObject() || idents[0] !in v.props then None
    else EvalIdents(v.props[idents[0]], idents[1..])
  }

  function EvalPath(v: Js, path: string): Option<Js> {
    if path == "" then Some(v) else EvalIdents(v, Idents(path))
  }

  /** The key a value stands for (section 7.4). */
  function ToKey(v: Js): Option<Key>
    decreases v, 1, 0
  {
    match v
    case Number(x) => if IsNaN(x) then None else Some(Num(x))
    case Text(units) => Some(Str(units))
    case DateValue(x, _) => if IsNaN(x) then None else Some(Date(x))
    case BufferValue(bytes, _) => Some(Bin(bytes))
    case ArrayValue(length, _) =>
      (match ItemKeys(v, length)
       case None => None
       case Some(items) => Some(Arr(items)))
    case _ => None
  }

  /** The keys of the first `n` items; nothing if one is a hole or no key. */
  function ItemKeys(v: Js, n: nat): Option<seq<Key>>
    requires v.ArrayValue?
    decreases v, 0, n
  {
    if n == 0 then Some([])
    else if Decimal(n - 1) !in v.props then None
    else
      match (ItemKeys(v, n - 1), ToKey(v.props[Decimal(n - 1)]))
      case (Some(items), Some(k)) => Some(items + [k])
      case _ => None
  }

  datatype KeyAt = NoValue | NotAKey | Found(key: Key)

  function KeyAtPath(v: Js, path: KeyPath): KeyAt {
    match path
    case NoPath => NoValue
    case Path(p) =>
      (match EvalPath(v, p)
       case None => NoValue
       case Some(w) => (match ToKey(w) case None => NotAKey case Some(k) => Found(k)))
    case Paths(ps) =>
      (match KeysAtPaths(v, ps)
       case None => NotAKey
       case Some(items) => Found(Arr(items)))
  }

  function KeysAtPaths(v: Js, paths: seq<string>): Option<seq<Key>> {
    if paths == [] then Some([])
    else
      match EvalPath(v, paths[0])
      case None => None
      case Some(w) =>
        match (ToKey(w), KeysAtPaths(v, paths[1..]))
        case (Some(k), Some(rest)) => Some([k] + rest)
        case _ => None
  }

  /** The encoded valid elements of an array, holes and non-keys skipped. */
  function ElementKeys(v: Js, n: nat): set<Bytes>
    requires v.ArrayValue?
  {
    if n == 0 then {}
    else
      ElementKeys(v, n - 1) +
      if Decimal(n - 1) !in v.props then {}
      else match ToKey(v.props[Decimal(n - 1)])
           case None => {}
           case Some(k) => {Encode(k)}
  }

  /** The keys, encoded, under which an index lists a record with this value. */
  function IndexKeys(v: Js, def: IndexDef): seq<Bytes> {
    if def.multi && def.keyPath.Path? then
      match EvalPath(v, def.keyPath.path)
      case None => []
      case Some(w) =>
        if w.ArrayValue? then Ascending(ElementKeys(w, w.length))
        else match ToKey(w)
             case None => []
             case Some(k) => [Encode(k)]
    else
      match KeyAtPath(v, def.keyPath)
      case Found(k) => [Encode(k)]
      case _ => []
  }

  lemma {:induction false} ElementKeysEncoded(v: Js, n: nat)
    requires v.ArrayValue?
    ensures forall k :: k in ElementKeys(v, n) ==> IsEncoding(k)
  {
    if n > 0 {
      ElementKeysEncoded(v, n - 1);
    }
  }

  /** The index keys of a record are distinct encoded keys. */
  lemma IndexKeysEncoded(v: Js, def: IndexDef)
    ensures forall k :: k in IndexKeys(v, def) ==> IsEncoding(k)
    ensures forall i, j :: 0 <= i < j < |IndexKeys(v, def)| ==> IndexKeys(v, def)[i] != IndexKeys(v, def)[j]
  {
    if def.multi && def.keyPath.Path? {
      var w := EvalPath(v, def.keyPath.path);
      if w.Some? && w.value.ArrayValue? {
        ElementKeysEncoded(w.value, w.value.length);
        var q := IndexKeys(v, def);
        forall i, j | 0 <= i < j < |q|
          ensures q[i] != q[j]
        {
          LessIsStrict(q[i], q[j]);
        }
      }
    }
  }

  // ---- key injection --------------------------------------------------------------------

  const MAX_INDEX := 0xFFFF_FFFE

  predicate IsDigit(c: char) {
    '0' <= c <= '9'
  }

  /** The number a string of digits denotes. */
  function DigitsValue(s: string): nat
    requires forall c :: c in s ==> IsDigit(c)
  {
    if s == [] then 0
    else
      var last := s[|s| - 1];
      assert IsDigit(last);
      DigitsValue(s[..|s| - 1]) * 10 + (last as int - '0' as int)
  }

  /** The array index a property name is, if it is one. */
  function ArrayIndex(name: string): Option<nat> {
    if name == "" || (exists c :: c in name && !IsDigit(c)) || (name[0] == '0' && |name| > 1) then None
    else if DigitsValue(name) > MAX_INDEX then None
    else Some(DigitsValue(name))
  }

  /** The object with one own property set, whatever its kind. */
  function SetProp(v: Js, name: string, w: Js): (r: Js)
    requires v.IsObject()
    ensures r.IsObject() && r.props == v.props[name := w]
    ensures r.ArrayValue? <==> v.ArrayValue?
    ensures v.ArrayValue? ==> r.length == v.length
  {
    match v
    case DateValue(x, props) => DateValue(x, props[name := w])
    case BufferValue(bytes, props) => BufferValue(bytes, props[name := w])
    case ArrayValue(length, props) => ArrayValue(length, props[name := w])
    case ObjectValue(props) => ObjectValue(props[name := w])
  }

  /** `create_data_property`: an index beyond the end lengthens an array. */
  function CreateProp(v: Js, name: string, w: Js): (r: Js)
    requires v.IsObject()
    ensures r.IsObject() && r.props == v.props[name := w]
    ensures r.ArrayValue? <==> v.ArrayValue?
  {
    if v.ArrayValue? && ArrayIndex(name).Some? && ArrayIndex(name).value >= v.length then
      ArrayValue(ArrayIndex(name).value + 1, v.props[name := w])
    else SetProp(v, name, w)
  }

  function KeyToValue(k: Key): Js
    decreases k, 1, 0
  {
    match k
    case Num(x) => Number(x)
    case Date(x) => DateValue(x, map[])
    case Str(units) => Text(units)
    case Bin(bytes) => BufferValue(bytes, map[])
    case Arr(items) => ArrayValue(|items|, ItemProps(k, |items|))
  }

  function ItemProps(k: Key, n: nat): map<string, Js>
    requires k.Arr? && n <= |k.items|
    decreases k, 0, n
  {
    if n == 0 then map[] else ItemProps(k, n - 1)[Decimal(n - 1) := KeyToValue(k.items[n - 1])]
  }

  /** Whether a key can be put at a path (section 7.2). */
  predicate CanInject(v: Js, idents: seq<string>)
    requires idents != []
    decreases |idents|
  {
    v.IsObject() &&
    (|idents| == 1 ||
     (if IsOwn(v, idents[0]) then CanInject(OwnValue(v, idents[0]), idents[1..]) else true))
  }

  /** `has_own_property`: an array owns its length too. */
  predicate IsOwn(v: Js, name: string)
    requires v.IsObject()
  {
    name in v.props || (v.ArrayValue? && name == "length")
  }

  function OwnValue(v: Js, name: string): Js
    requires v.IsObject() && IsOwn(v, name)
  {
    if v.ArrayValue? && name == "length" then LengthNumber(v.length) else v.props[name]
  }

  /** The value with `w` created at the path, the objects in between created
      where they are missing; unchanged where the path meets a non-object. */
  function Inject(v: Js, idents: seq<string>, w: Js): Js
    requires idents != []
    decreases |idents|
  {
    if !v.IsObject() then v
    else if |idents| == 1 then CreateProp(v, idents[0], w)
    else if !IsOwn(v, idents[0]) then CreateProp(v, idents[0], Inject(ObjectValue(map[]), idents[1..], w))
    else if v.ArrayValue? && idents[0] == "length" then v
    else SetProp(v, idents[0], Inject(v.props[idents[0]], idents[1..], w))
  }
}
