// solana/scripts/route_lib.ts: canonicalize and routeId. The printed text determines the value
// up to the order of object keys.
module CanonicalJson {
  import opened Sorting
  import opened Bytes
  import opened Decimals

  datatype Json =
    | Null
    | Bool(b: bool)
    | Num(n: Finite)
    | NonFinite
    | Str(s: Text)
    | Arr(items: seq<Json>)
    | Obj(fields: seq<Field>)
    | Unsupported

  datatype Field = Field(key: Text, value: Json)

  const QUOTE: CodeUnit := 34
  const COMMA: CodeUnit := 44
  const COLON: CodeUnit := 58
  const LBRACKET: CodeUnit := 91
  const BACKSLASH: CodeUnit := 92
  const RBRACKET: CodeUnit := 93
  const LBRACE: CodeUnit := 123
  const RBRACE: CodeUnit := 125
  const NULL: Text := [110, 117, 108, 108]
  const TRUE: Text := [116, 114, 117, 101]
  const FALSE: Text := [102, 97, 108, 115, 101]

  // ---------- strings ----------

  function HexDigit(d: nat): CodeUnit
    requires d < 16
  {
    if d < 10 then 48 + d else 87 + d
  }

  // \uXXXX in lower case.
  function UnicodeEscape(c: CodeUnit): Text {
    [BACKSLASH, 117, HexDigit(c / 4096), HexDigit(c / 256 % 16), HexDigit(c / 16 % 16), HexDigit(c % 16)]
  }

  predicate High(c: CodeUnit) { 0xD800 <= c < 0xDC00 }
  predicate Low(c: CodeUnit) { 0xDC00 <= c < 0xE000 }

  // One code unit outside a surrogate pair.
  function Escape(c: CodeUnit): Text {
    if c == QUOTE || c == BACKSLASH then [BACKSLASH, c]
    else if c == 8 then [BACKSLASH, 98]
    else if c == 9 then [BACKSLASH, 116]
    else if c == 10 then [BACKSLASH, 110]
    else if c == 12 then [BACKSLASH, 102]
    else if c == 13 then [BACKSLASH, 114]
    else if c < 32 || High(c) || Low(c) then UnicodeEscape(c)
    else [c]
  }

  // JSON.stringify of a string, without the quotes: surrogate pairs stay, lone surrogates are
  // escaped.
  function StringBody(s: Text): Text {
    if s == [] then []
    else if |s| >= 2 && High(s[0]) && Low(s[1]) then [s[0], s[1]] + StringBody(s[2..])
    else Escape(s[0]) + StringBody(s[1..])
  }

  function StringText(s: Text): Text {
    [QUOTE] + StringBody(s) + [QUOTE]
  }

  // ---------- the printer ----------

  // Object.keys(obj).sort(): by code units.
  function KeyOrder(a: Text, b: Text): bool {
    if a == [] then true
    else if b == [] then false
    else if a[0] != b[0] then a[0] < b[0]
    else KeyOrder(a[1..], b[1..])
  }

  function Keys(fields: seq<Field>): (r: seq<Text>)
    ensures |r| == |fields| && forall i :: 0 <= i < |r| ==> r[i] == fields[i].key
  {
    seq(|fields|, i requires 0 <= i < |fields| => fields[i].key)
  }

  function IndexOf(fields: seq<Field>, k: Text): (i: nat)
    requires k in Keys(fields)
    ensures i < |fields| && fields[i].key == k
  {
    if fields[0].key == k then 0
    else
      assert k in Keys(fields[1..]) by {
        var j :| 0 <= j < |fields| && Keys(fields)[j] == k;
        assert Keys(fields[1..])[j - 1] == k;
      }
      1 + IndexOf(fields[1..], k)
  }

  function SortedKeys(fields: seq<Field>): (r: seq<Text>)
    ensures multiset(r) == multiset(Keys(fields))
    ensures forall k :: k in r ==> k in Keys(fields)
  {
    var r := Sort(Keys(fields), KeyOrder);
    MembersOf(r, Keys(fields));
    r
  }

  function Join(parts: seq<Text>): Text {
    if parts == [] then []
    else if |parts| == 1 then parts[0]
    else parts[0] + [COMMA] + Join(parts[1..])
  }

  function Canonicalize(v: Json): Outcome<Text>
    decreases v, 1
  {
    match v
    case Null => Ok(NULL)
    case Bool(b) => Ok(if b then TRUE else FALSE)
    case Num(n) => Ok(NumberText(n))
    case NonFinite => Throws
    case Str(s) => Ok(StringText(s))
    case Arr(items) =>
      (match CanonicalizeItems(items)
       case Throws => Throws
       case Ok(parts) => Ok([LBRACKET] + Join(parts) + [RBRACKET]))
    case Obj(fields) =>
      (match CanonicalizeKeys(fields, SortedKeys(fields))
       case Throws => Throws
       case Ok(parts) => Ok([LBRACE] + Join(parts) + [RBRACE]))
    case Unsupported => Throws
  }

  // value.map(canonicalize).
  function CanonicalizeItems(items: seq<Json>): Outcome<seq<Text>>
    decreases items, 0
  {
    if items == [] then Ok([])
    else
      match Canonicalize(items[0])
      case Throws => Throws
      case Ok(t) =>
        match CanonicalizeItems(items[1..])
        case Throws => Throws
        case Ok(ts) => Ok([t] + ts)
  }

  // keys.map((k) => JSON.stringify(k) + ":" + canonicalize(obj[k])).
  function CanonicalizeKeys(fields: seq<Field>, keys: seq<Text>): Outcome<seq<Text>>
    requires forall k :: k in keys ==> k in Keys(fields)
    decreases fields, |keys|
  {
    if keys == [] then Ok([])
    else
      match Canonicalize(fields[IndexOf(fields, keys[0])].value)
      case Throws => Throws
      case Ok(t) =>
        match CanonicalizeKeys(fields, keys[1..])
        case Throws => Throws
        case Ok(ts) => Ok([StringText(keys[0]) + [COLON] + t] + ts)
  }

  function RouteId<Hash>(v: Json, sha256: Text -> Hash): Outcome<Hash> {
    match Canonicalize(v)
    case Throws => Throws
    case Ok(t) => Ok(sha256(t))
  }

  // ---------- what a value means: objects are maps ----------

  datatype Value =
    | VNull
    | VBool(b: bool)
    | VNum(n: Finite)
    | VStr(s: Text)
    | VArr(items: seq<Value>)
    | VObj(entries: map<Text, Value>)

  function Meaning(v: Json): Value
    decreases v, 1
  {
    match v
    case Bool(b) => VBool(b)
    case Num(n) => VNum(n)
    case Str(s) => VStr(s)
    case Arr(items) => VArr(MeaningItems(items))
    case Obj(fields) => VObj(MeaningFields(fields))
    case _ => VNull
  }

  function MeaningItems(items: seq<Json>): (r: seq<Value>)
    ensures |r| == |items|
    decreases items, 0
  {
    if items == [] then [] else [Meaning(items[0])] + MeaningItems(items[1..])
  }

  function MeaningFields(fields: seq<Field>): map<Text, Value>
    decreases fields, 0
  {
    if fields == [] then map[] else MeaningFields(fields[1..])[fields[0].key := Meaning(fields[0].value)]
  }

  // No NaN, infinity, function or undefined anywhere: what canonicalize does not throw on.
  predicate Printable(v: Json) {
    match v
    case NonFinite => false
    case Unsupported => false
    case Arr(items) => forall i :: 0 <= i < |items| ==> Printable(items[i])
    case Obj(fields) => forall i :: 0 <= i < |fields| ==> Printable(fields[i].value)
    case _ => true
  }

  predicate Distinct(keys: seq<Text>) {
    forall i, j :: 0 <= i < j < |keys| ==> keys[i] != keys[j]
  }

  // The keys of a JavaScript object are distinct.
  predicate IsValue(v: Json) {
    match v
    case Arr(items) => forall i :: 0 <= i < |items| ==> IsValue(items[i])
    case Obj(fields) => Distinct(Keys(fields)) && forall i :: 0 <= i < |fields| ==> IsValue(fields[i].value)
    case _ => true
  }

  // ---------- normal forms ----------

  function Normal(v: Json): Json
    decreases v, 1
  {
    match v
    case Arr(items) => Arr(NormalItems(items))
    case Obj(fields) => Obj(NormalFields(fields, SortedKeys(fields)))
    case _ => v
  }

  function NormalItems(items: seq<Json>): (r: seq<Json>)
    ensures |r| == |items|
    decreases items, 0
  {
    if items == [] then [] else [Normal(items[0])] + NormalItems(items[1..])
  }

  function NormalFields(fields: seq<Field>, keys: seq<Text>): (r: seq<Field>)
    requires forall k :: k in keys ==> k in Keys(fields)
    ensures Keys(r) == keys
    decreases fields, |keys|
  {
    if keys == [] then []
    else [Field(keys[0], Normal(fields[IndexOf(fields, keys[0])].value))] + NormalFields(fields, keys[1..])
  }

  // The printer without sorting.
  function Print(v: Json): Text
    decreases v, 1
  {
    match v
    case Bool(b) => if b then TRUE else FALSE
    case Num(n) => NumberText(n)
    case Str(s) => StringText(s)
    case Arr(items) => [LBRACKET] + Join(PrintItems(items)) + [RBRACKET]
    case Obj(fields) => [LBRACE] + Join(PrintFields(fields)) + [RBRACE]
    case _ => NULL
  }

  function PrintItems(items: seq<Json>): (r: seq<Text>)
    ensures |r| == |items|
    decreases items, 0
  {
    if items == [] then [] else [Print(items[0])] + PrintItems(items[1..])
  }

  function PrintFields(fields: seq<Field>): (r: seq<Text>)
    ensures |r| == |fields|
    decreases fields, 0
  {
    if fields == [] then []
    else [StringText(fields[0].key) + [COLON] + Print(fields[0].value)] + PrintFields(fields[1..])
  }

  // canonicalize prints the normal form, and throws on nothing but unprintable values.
  lemma {:induction false} CanonicalizePrintsNormal(v: Json)
    requires IsValue(v)
    ensures Canonicalize(v) == if Printable(v) then Ok(Print(Normal(v))) else Throws
    decreases v, 1
  {
    match v
    case Arr(items) => ItemsPrintNormal(items);
    case Obj(fields) =>
      var keys := SortedKeys(fields);
      KeysPrintNormal(fields, keys);
      KeysIndexed(fields, keys);
    case _ =>
  }

  lemma KeysIndexed(fields: seq<Field>, keys: seq<Text>)
    requires multiset(keys) == multiset(Keys(fields)) && Distinct(Keys(fields))
    ensures forall i :: 0 <= i < |fields| ==> fields[i].key in keys
    ensures forall i :: 0 <= i < |fields| ==> fields[i].key in Keys(fields) && IndexOf(fields, fields[i].key) == i
  {
    hide IndexOf;
    MembersOf(keys, Keys(fields));
    forall i | 0 <= i < |fields|
      ensures fields[i].key in keys && fields[i].key in Keys(fields) && IndexOf(fields, fields[i].key) == i
    {
      IndexOfKey(fields, i);
    }
  }

  lemma IndexOfKey(fields: seq<Field>, i: nat)
    requires i < |fields| && Distinct(Keys(fields))
    ensures fields[i].key in Keys(fields) && IndexOf(fields, fields[i].key) == i
  {
    hide IndexOf;
    var keys := Keys(fields);
    assert keys[i] in keys;
    var j := IndexOf(fields, fields[i].key);
    assert keys[j] == keys[i];
    SameIndex(keys, i, j);
  }

  lemma SameIndex(keys: seq<Text>, i: nat, j: nat)
    requires Distinct(keys) && i < |keys| && j < |keys|
    ensures keys[i] == keys[j] ==> i == j
  {
  }

  lemma {:induction false} ItemsPrintNormal(items: seq<Json>)
    requires forall i :: 0 <= i < |items| ==> IsValue(items[i])
    ensures CanonicalizeItems(items)
         == if forall i :: 0 <= i < |items| ==> Printable(items[i]) then Ok(PrintItems(NormalItems(items))) else Throws
    decreases items, 0
  {
    if items != [] {
      CanonicalizePrintsNormal(items[0]);
      ItemsPrintNormal(items[1..]);
      assert (forall i :: 0 <= i < |items| ==> Printable(items[i]))
        <==> Printable(items[0]) && forall i :: 0 <= i < |items[1..]| ==> Printable(items[1..][i]);
    }
  }

  lemma {:induction false} KeysPrintNormal(fields: seq<Field>, keys: seq<Text>)
    requires forall k :: k in keys ==> k in Keys(fields)
    requires forall i :: 0 <= i < |fields| ==> IsValue(fields[i].value)
    ensures CanonicalizeKeys(fields, keys)
         == if forall k :: k in keys ==> Printable(fields[IndexOf(fields, k)].value)
            then Ok(PrintFields(NormalFields(fields, keys))) else Throws
    decreases fields, |keys|
  {
    if keys != [] {
      CanonicalizePrintsNormal(fields[IndexOf(fields, keys[0])].value);
      KeysPrintNormal(fields, keys[1..]);
      assert (forall k :: k in keys ==> Printable(fields[IndexOf(fields, k)].value))
        <==> Printable(fields[IndexOf(fields, keys[0])].value)
             && forall k :: k in keys[1..] ==> Printable(fields[IndexOf(fields, k)].value);
    }
  }

  // ---------- the text is read back in one way only ----------

  // What can follow a value in a text.
  predicate Stops(s: Text) {
    s == [] || s[0] in [COMMA, RBRACKET, RBRACE]
  }

  // The code units an escape sequence or a plain unit takes from the front of s.
  predicate Pair(s: Text) {
    |s| >= 2 && High(s[0]) && Low(s[1])
  }

  function Piece(s: Text): (r: Text)
    requires s != []
    ensures r != [] && r[0] != QUOTE
  {
    if Pair(s) then [s[0], s[1]] else Escape(s[0])
  }

  function Taken(s: Text): (n: nat)
    requires s != []
    ensures 1 <= n <= |s|
  {
    if Pair(s) then 2 else 1
  }

  lemma EscapesUnique(c: CodeUnit, d: CodeUnit, s: Text, t: Text)
    requires Escape(c) + s == Escape(d) + t
    ensures c == d && s == t
  {
    var x, y := Escape(c), Escape(d);
    assert (x + s)[0] == x[0] && (y + t)[0] == y[0];
    if |x| > 1 && |y| > 1 {
      assert (x + s)[1] == x[1] && (y + t)[1] == y[1];
      if |x| == 6 && |y| == 6 {
        assert (x + s)[2] == x[2] && (y + t)[2] == y[2];
        assert (x + s)[3] == x[3] && (y + t)[3] == y[3];
        assert (x + s)[4] == x[4] && (y + t)[4] == y[4];
        assert (x + s)[5] == x[5] && (y + t)[5] == y[5];
        HexUnique(c, d);
      }
    }
    SameHead(x, s, y, t);
  }

  lemma HexUnique(c: CodeUnit, d: CodeUnit)
    requires UnicodeEscape(c) == UnicodeEscape(d)
    ensures c == d
  {
    var x, y := UnicodeEscape(c), UnicodeEscape(d);
    assert x[2] == y[2] && x[3] == y[3] && x[4] == y[4] && x[5] == y[5];
    HexDigits(c);
    HexDigits(d);
  }

  lemma HexDigits(c: CodeUnit)
    ensures c == 4096 * (c / 4096) + 256 * (c / 256 % 16) + 16 * (c / 16 % 16) + c % 16
    ensures c / 4096 < 16
  {
    var a := c / 16;
    var b := a / 16;
    assert c / 256 == b && c / 4096 == b / 16;
  }

  lemma PiecesUnique(s: Text, t: Text, x: Text, y: Text)
    requires s != [] && t != [] && Piece(s) + x == Piece(t) + y
    ensures Taken(s) == Taken(t) && s[..Taken(s)] == t[..Taken(t)] && x == y
  {
    var p, q := Piece(s), Piece(t);
    assert (p + x)[0] == p[0] && (q + y)[0] == q[0];
    if Pair(s) || Pair(t) {
      assert Pair(s) && Pair(t);
      SameHead(p, x, q, y);
    } else {
      EscapesUnique(s[0], t[0], x, y);
    }
  }

  lemma BodyStep(s: Text, x: Text)
    requires s != []
    ensures StringBody(s) + [QUOTE] + x == Piece(s) + (StringBody(s[Taken(s)..]) + [QUOTE] + x)
    ensures (StringBody(s) + [QUOTE] + x)[0] != QUOTE
  {
    var rest := StringBody(s[Taken(s)..]) + [QUOTE] + x;
    assert (Piece(s) + rest)[0] == Piece(s)[0];
  }

  lemma {:induction false} BodiesUnique(s: Text, t: Text, x: Text, y: Text)
    requires StringBody(s) + [QUOTE] + x == StringBody(t) + [QUOTE] + y
    ensures s == t && x == y
    decreases |s|
  {
    if s == [] || t == [] {
      assert StringBody([]) + [QUOTE] + x == [QUOTE] + x && StringBody([]) + [QUOTE] + y == [QUOTE] + y;
      assert ([QUOTE] + x)[0] == QUOTE && ([QUOTE] + y)[0] == QUOTE;
      if s != [] {
        BodyStep(s, x);
      } else if t != [] {
        BodyStep(t, y);
      } else {
        SameHead([QUOTE], x, [QUOTE], y);
      }
    } else {
      var n := Taken(s);
      BodyStep(s, x);
      BodyStep(t, y);
      PiecesUnique(s, t, StringBody(s[n..]) + [QUOTE] + x, StringBody(t[Taken(t)..]) + [QUOTE] + y);
      BodiesUnique(s[n..], t[n..], x, y);
      assert s == s[..n] + s[n..] && t == t[..n] + t[n..];
    }
  }

  lemma StringsUnique(s: Text, t: Text, x: Text, y: Text)
    requires StringText(s) + x == StringText(t) + y
    ensures s == t && x == y
  {
    assert (StringText(s) + x)[1..] == StringBody(s) + [QUOTE] + x;
    assert (StringText(t) + y)[1..] == StringBody(t) + [QUOTE] + y;
    BodiesUnique(s, t, x, y);
  }

  function FirstUnit(v: Json): CodeUnit {
    match v
    case Bool(b) => if b then 116 else 102
    case Num(n) => NumberText(n)[0]
    case Str(_) => QUOTE
    case Arr(_) => LBRACKET
    case Obj(_) => LBRACE
    case _ => 110
  }

  lemma PrintStarts(v: Json, s: Text)
    ensures Print(v) != [] && Print(v)[0] == (Print(v) + s)[0] == FirstUnit(v)
    ensures v.Num? ==> FirstUnit(v) == MINUS || 48 <= FirstUnit(v) <= 57
    ensures FirstUnit(v) != RBRACKET
  {
    if v.Num? {
      TextIs(v.n);
    }
  }

  // What follows the first part of a joined list.
  function After(rest: seq<Text>, close: CodeUnit, s: Text): Text {
    if rest == [] then [close] + s else [COMMA] + (Join(rest) + [close] + s)
  }

  lemma JoinStep(parts: seq<Text>, close: CodeUnit, s: Text)
    requires parts != []
    ensures Join(parts) + [close] + s == parts[0] + After(parts[1..], close, s)
  {
  }

  lemma AfterUnique(p: seq<Text>, q: seq<Text>, close: CodeUnit, s: Text, t: Text)
    requires After(p, close, s) == After(q, close, t) && close != COMMA
    ensures p == [] <==> q == []
    ensures p == [] ==> s == t
    ensures p != [] ==> Join(p) + [close] + s == Join(q) + [close] + t
  {
    var x, y := After(p, close, s), After(q, close, t);
    assert x[0] == y[0];
    if p == [] {
      SameHead([close], s, [close], t);
    } else {
      SameHead([COMMA], Join(p) + [close] + s, [COMMA], Join(q) + [close] + t);
    }
  }

  // Two values followed by text that cannot belong to them print alike only if they are equal.
  lemma {:induction false} PrintsUnique(a: Json, b: Json, s: Text, t: Text)
    requires Printable(a) && Printable(b) && Stops(s) && Stops(t)
    requires Print(a) + s == Print(b) + t
    ensures a == b && s == t
    decreases a, 1
  {
    hide Join;
    hide NumberText;
    hide StringText;
    PrintStarts(a, s);
    PrintStarts(b, t);
    match a
    case Null => SameHead(NULL, s, NULL, t);
    case Bool(_) => SameHead(Print(a), s, Print(b), t);
    case Num(n) => NumbersReadable(n, b.n, s, t);
    case Str(u) => StringsUnique(u, b.s, s, t);
    case Arr(xs) =>
      Unwrap(LBRACKET, Join(PrintItems(xs)), RBRACKET, s, Join(PrintItems(b.items)), t);
      ItemsUnique(xs, b.items, s, t);
    case Obj(xs) =>
      Unwrap(LBRACE, Join(PrintFields(xs)), RBRACE, s, Join(PrintFields(b.fields)), t);
      FieldsUnique(xs, b.fields, s, t);
  }

  lemma Unwrap(open: CodeUnit, x: Text, close: CodeUnit, s: Text, y: Text, t: Text)
    requires [open] + x + [close] + s == [open] + y + [close] + t
    ensures x + [close] + s == y + [close] + t
  {
    assert ([open] + x + [close] + s)[1..] == x + [close] + s;
    assert ([open] + y + [close] + t)[1..] == y + [close] + t;
  }

  lemma {:induction false} ItemsUnique(xs: seq<Json>, ys: seq<Json>, s: Text, t: Text)
    requires forall x :: x in xs || x in ys ==> Printable(x)
    requires Join(PrintItems(xs)) + [RBRACKET] + s == Join(PrintItems(ys)) + [RBRACKET] + t
    ensures xs == ys && s == t
    decreases xs, 0
  {
    var p, q := PrintItems(xs), PrintItems(ys);
    JoinStarts(p, RBRACKET, s);
    JoinStarts(q, RBRACKET, t);
    if xs != [] {
      PrintStarts(xs[0], []);
    }
    if ys != [] {
      PrintStarts(ys[0], []);
    }
    if xs == [] {
      SameHead([RBRACKET], s, [RBRACKET], t);
    } else {
      hide Join;
      hide Print;
      JoinStep(p, RBRACKET, s);
      JoinStep(q, RBRACKET, t);
      var u, v := After(p[1..], RBRACKET, s), After(q[1..], RBRACKET, t);
      PrintsUnique(xs[0], ys[0], u, v);
      AfterUnique(p[1..], q[1..], RBRACKET, s, t);
      if |xs| > 1 {
        ItemsUnique(xs[1..], ys[1..], s, t);
      }
    }
  }

  lemma JoinStarts(parts: seq<Text>, close: CodeUnit, s: Text)
    ensures parts == [] ==> Join(parts) + [close] + s == [close] + s && (Join(parts) + [close] + s)[0] == close
    ensures parts != [] && parts[0] != [] ==> (Join(parts) + [close] + s)[0] == parts[0][0]
  {
  }

  lemma {:induction false} FieldsUnique(xs: seq<Field>, ys: seq<Field>, s: Text, t: Text)
    requires forall x :: x in xs || x in ys ==> Printable(x.value)
    requires Join(PrintFields(xs)) + [RBRACE] + s == Join(PrintFields(ys)) + [RBRACE] + t
    ensures xs == ys && s == t
    decreases xs, 0
  {
    var p, q := PrintFields(xs), PrintFields(ys);
    JoinStarts(p, RBRACE, s);
    JoinStarts(q, RBRACE, t);
    if xs != [] {
      FieldStarts(xs[0]);
    }
    if ys != [] {
      FieldStarts(ys[0]);
    }
    if xs == [] {
      SameHead([RBRACE], s, [RBRACE], t);
    } else {
      hide Join;
      hide Print;
      hide StringText;
      JoinStep(p, RBRACE, s);
      JoinStep(q, RBRACE, t);
      var u, v := After(p[1..], RBRACE, s), After(q[1..], RBRACE, t);
      PartUnique(xs[0], ys[0], u, v);
      PrintsUnique(xs[0].value, ys[0].value, u, v);
      AfterUnique(p[1..], q[1..], RBRACE, s, t);
      if |xs| > 1 {
        FieldsUnique(xs[1..], ys[1..], s, t);
      }
    }
  }

  lemma FieldStarts(f: Field)
    ensures var part := StringText(f.key) + [COLON] + Print(f.value); part != [] && part[0] == QUOTE
  {
    hide Print;
    assert (StringText(f.key) + [COLON] + Print(f.value))[0] == StringText(f.key)[0];
  }

  lemma PartUnique(f: Field, g: Field, u: Text, v: Text)
    requires (StringText(f.key) + [COLON] + Print(f.value)) + u == (StringText(g.key) + [COLON] + Print(g.value)) + v
    ensures f.key == g.key && Print(f.value) + u == Print(g.value) + v
  {
    hide Print;
    hide StringText;
    var x, y := [COLON] + (Print(f.value) + u), [COLON] + (Print(g.value) + v);
    assert (StringText(f.key) + [COLON] + Print(f.value)) + u == StringText(f.key) + x;
    assert (StringText(g.key) + [COLON] + Print(g.value)) + v == StringText(g.key) + y;
    StringsUnique(f.key, g.key, x, y);
    SameHead([COLON], Print(f.value) + u, [COLON], Print(g.value) + v);
  }

  // ---------- normal forms stand for meanings ----------

  lemma {:induction false} KeyOrderTotal(a: Text, b: Text)
    ensures KeyOrder(a, b) || KeyOrder(b, a)
    ensures KeyOrder(a, b) && KeyOrder(b, a) ==> a == b
  {
    if a != [] && b != [] && a[0] == b[0] {
      KeyOrderTotal(a[1..], b[1..]);
      assert a == [a[0]] + a[1..] && b == [b[0]] + b[1..];
    }
  }

  lemma {:induction false} KeyOrderTransitive(a: Text, b: Text, c: Text)
    requires KeyOrder(a, b) && KeyOrder(b, c)
    ensures KeyOrder(a, c)
  {
    if a != [] && b != [] && c != [] && a[0] == b[0] == c[0] {
      KeyOrderTransitive(a[1..], b[1..], c[1..]);
    }
  }

  lemma KeyOrderPreorder()
    ensures TotalPreorder(KeyOrder)
  {
    forall a, b ensures KeyOrder(a, b) || KeyOrder(b, a) {
      KeyOrderTotal(a, b);
    }
    forall a, b, c | KeyOrder(a, b) && KeyOrder(b, c) ensures KeyOrder(a, c) {
      KeyOrderTransitive(a, b, c);
    }
  }

  predicate Increasing(keys: seq<Text>) {
    (forall i, j :: 0 <= i < j < |keys| ==> KeyOrder(keys[i], keys[j])) && Distinct(keys)
  }

  predicate IsNormal(v: Json) {
    match v
    case Arr(items) => forall i :: 0 <= i < |items| ==> IsNormal(items[i])
    case Obj(fields) => Increasing(Keys(fields)) && forall i :: 0 <= i < |fields| ==> IsNormal(fields[i].value)
    case _ => true
  }

  lemma DistinctCounts(a: seq<Text>, b: seq<Text>)
    requires multiset(a) == multiset(b) && Distinct(a)
    ensures Distinct(b)
  {
    forall i, j | 0 <= i < j < |b| ensures b[i] != b[j] {
      if b[i] == b[j] {
        TwiceCounts(b, i, j);
        OnceCounts(a, b[i]);
      }
    }
  }

  lemma TwiceCounts(b: seq<Text>, i: nat, j: nat)
    requires i < j < |b| && b[i] == b[j]
    ensures multiset(b)[b[i]] >= 2
  {
    Without(b, i);
    var r := b[..i] + b[i + 1..];
    assert r[j - 1] == b[j];
    assert b[j] in multiset(r);
  }

  lemma {:induction false} OnceCounts(a: seq<Text>, k: Text)
    requires Distinct(a)
    ensures multiset(a)[k] <= 1
  {
    if a != [] {
      assert a == [a[0]] + a[1..];
      OnceCounts(a[1..], k);
      if k == a[0] {
        assert k !in a[1..];
        assert k !in multiset(a[1..]);
      }
    }
  }

  lemma SortedKeysIncrease(fields: seq<Field>)
    requires Distinct(Keys(fields))
    ensures Increasing(SortedKeys(fields))
  {
    KeyOrderPreorder();
    SortSorted(Keys(fields), KeyOrder);
    DistinctCounts(Keys(fields), SortedKeys(fields));
  }

  lemma {:induction false} NormalIsNormal(v: Json)
    requires IsValue(v)
    ensures IsNormal(Normal(v)) && (Printable(v) ==> Printable(Normal(v)))
    decreases v, 1
  {
    match v
    case Arr(items) => NormalItemsNormal(items);
    case Obj(fields) =>
      SortedKeysIncrease(fields);
      NormalFieldsNormal(fields, SortedKeys(fields));
    case _ =>
  }

  lemma {:induction false} NormalItemsNormal(items: seq<Json>)
    requires forall i :: 0 <= i < |items| ==> IsValue(items[i])
    ensures var r := NormalItems(items);
            forall i :: 0 <= i < |r| ==> IsNormal(r[i]) && (Printable(items[i]) ==> Printable(r[i]))
    decreases items, 0
  {
    if items != [] {
      NormalIsNormal(items[0]);
      NormalItemsNormal(items[1..]);
    }
  }

  lemma {:induction false} NormalFieldsNormal(fields: seq<Field>, keys: seq<Text>)
    requires forall k :: k in keys ==> k in Keys(fields)
    requires forall i :: 0 <= i < |fields| ==> IsValue(fields[i].value)
    ensures var r := NormalFields(fields, keys);
            && |r| == |keys|
            && (forall i :: 0 <= i < |r| ==> IsNormal(r[i].value))
            && (forall i :: 0 <= i < |r| && Printable(fields[IndexOf(fields, keys[i])].value) ==>
                Printable(r[i].value))
    decreases fields, |keys|
  {
    assert Keys(NormalFields(fields, keys)) == keys;
    if keys != [] {
      NormalIsNormal(fields[IndexOf(fields, keys[0])].value);
      NormalFieldsNormal(fields, keys[1..]);
    }
  }

  lemma {:induction false} FieldsMeaning(fields: seq<Field>)
    requires Distinct(Keys(fields))
    ensures MeaningFields(fields).Keys == set k | k in Keys(fields)
    ensures forall i :: 0 <= i < |fields| ==> fields[i].key in MeaningFields(fields)
                                              && MeaningFields(fields)[fields[i].key] == Meaning(fields[i].value)
  {
    if fields != [] {
      hide Meaning;
      var rest := fields[1..];
      assert Keys(rest) == Keys(fields)[1..];
      FieldsMeaning(rest);
      assert Keys(fields) == [fields[0].key] + Keys(rest);
      forall i | 0 <= i < |fields|
        ensures fields[i].key in MeaningFields(fields)
        ensures MeaningFields(fields)[fields[i].key] == Meaning(fields[i].value)
      {
        assert Keys(fields)[i] == fields[i].key && Keys(fields)[0] == fields[0].key;
        if i > 0 {
          assert rest[i - 1] == fields[i];
        }
      }
    }
  }

  lemma SameEntries(r: seq<Field>, fields: seq<Field>)
    requires Distinct(Keys(r)) && Distinct(Keys(fields))
    requires forall k :: k in Keys(r) <==> k in Keys(fields)
    requires forall i :: 0 <= i < |r| ==>
      exists j :: 0 <= j < |fields| && fields[j].key == r[i].key && Meaning(fields[j].value) == Meaning(r[i].value)
    ensures MeaningFields(r) == MeaningFields(fields)
  {
    hide Meaning;
    hide MeaningFields;
    hide Distinct;
    FieldsMeaning(fields);
    FieldsMeaning(r);
    var m, n := MeaningFields(r), MeaningFields(fields);
    assert m.Keys == n.Keys;
    forall k | k in m ensures m[k] == n[k] {
      assert k in Keys(r);
      var i :| 0 <= i < |r| && Keys(r)[i] == k;
      var j :| 0 <= j < |fields| && fields[j].key == r[i].key && Meaning(fields[j].value) == Meaning(r[i].value);
    }
  }

  lemma {:induction false} NormalMeaning(v: Json)
    requires IsValue(v)
    ensures Meaning(Normal(v)) == Meaning(v)
    decreases v, 1
  {
    match v
    case Arr(items) => NormalItemsMeaning(items);
    case Obj(fields) =>
      var keys := SortedKeys(fields);
      var r := NormalFields(fields, keys);
      SortedKeysIncrease(fields);
      MembersOf(keys, Keys(fields));
      NormalFieldsMeaning(fields, keys);
      forall i | 0 <= i < |r|
        ensures exists j ::
                  0 <= j < |fields| && fields[j].key == r[i].key && Meaning(fields[j].value) == Meaning(r[i].value)
      {
        assert Keys(r)[i] == r[i].key;
        var j := IndexOf(fields, keys[i]);
      }
      SameEntries(r, fields);
    case _ =>
  }

  lemma {:induction false} NormalItemsMeaning(items: seq<Json>)
    requires forall i :: 0 <= i < |items| ==> IsValue(items[i])
    ensures MeaningItems(NormalItems(items)) == MeaningItems(items)
    decreases items, 0
  {
    if items != [] {
      NormalMeaning(items[0]);
      NormalItemsMeaning(items[1..]);
    }
  }

  lemma {:induction false} NormalFieldsMeaning(fields: seq<Field>, keys: seq<Text>)
    requires forall k :: k in keys ==> k in Keys(fields)
    requires forall i :: 0 <= i < |fields| ==> IsValue(fields[i].value)
    ensures var r := NormalFields(fields, keys);
            && |r| == |keys|
            && forall i :: 0 <= i < |r| ==> Meaning(r[i].value) == Meaning(fields[IndexOf(fields, keys[i])].value)
    decreases fields, |keys|
  {
    assert Keys(NormalFields(fields, keys)) == keys;
    if keys != [] {
      NormalMeaning(fields[IndexOf(fields, keys[0])].value);
      NormalFieldsMeaning(fields, keys[1..]);
    }
  }

  // A meaning has one normal form.
  lemma {:induction false} NormalFormsUnique(a: Json, b: Json)
    requires IsNormal(a) && IsNormal(b) && Printable(a) && Printable(b)
    requires Meaning(a) == Meaning(b)
    ensures a == b
    decreases a, 1
  {
    match a
    case Arr(xs) => NormalItemsUnique(xs, b.items);
    case Obj(xs) => NormalFieldsUnique(xs, b.fields);
    case _ =>
  }

  lemma {:induction false} NormalItemsUnique(xs: seq<Json>, ys: seq<Json>)
    requires forall x :: x in xs || x in ys ==> IsNormal(x) && Printable(x)
    requires MeaningItems(xs) == MeaningItems(ys)
    ensures xs == ys
    decreases xs, 0
  {
    assert |MeaningItems(xs)| == |xs| && |MeaningItems(ys)| == |ys|;
    if xs != [] {
      assert MeaningItems(xs)[0] == Meaning(xs[0]) && MeaningItems(ys)[0] == Meaning(ys[0]);
      assert MeaningItems(xs)[1..] == MeaningItems(xs[1..]) && MeaningItems(ys)[1..] == MeaningItems(ys[1..]);
      NormalFormsUnique(xs[0], ys[0]);
      NormalItemsUnique(xs[1..], ys[1..]);
    }
  }

  // The head of an increasing list of fields has the least key of the map.
  lemma LeastKey(xs: seq<Field>, ys: seq<Field>)
    requires xs != [] && ys != [] && Increasing(Keys(xs)) && Increasing(Keys(ys))
    requires MeaningFields(xs) == MeaningFields(ys)
    ensures xs[0].key == ys[0].key && Meaning(xs[0].value) == Meaning(ys[0].value)
    ensures MeaningFields(xs[1..]) == MeaningFields(ys[1..])
  {
    FieldsMeaning(xs);
    FieldsMeaning(ys);
    var x, y := xs[0].key, ys[0].key;
    assert x in Keys(ys) && y in Keys(xs);
    var i :| 0 <= i < |ys| && Keys(ys)[i] == x;
    var j :| 0 <= j < |xs| && Keys(xs)[j] == y;
    assert i == 0 || KeyOrder(y, x);
    assert j == 0 || KeyOrder(x, y);
    KeyOrderTotal(x, y);
    DropHead(xs);
    DropHead(ys);
  }

  lemma DropHead(xs: seq<Field>)
    requires xs != [] && Distinct(Keys(xs))
    ensures MeaningFields(xs[1..]) == MeaningFields(xs) - {xs[0].key}
  {
    hide Meaning;
    var rest, k := xs[1..], xs[0].key;
    HeadFresh(xs);
    FieldsMeaning(rest);
    MapMinus(MeaningFields(rest), k, Meaning(xs[0].value));
  }

  lemma HeadFresh(xs: seq<Field>)
    requires xs != [] && Distinct(Keys(xs))
    ensures Distinct(Keys(xs[1..])) && xs[0].key !in Keys(xs[1..])
  {
    assert Keys(xs[1..]) == Keys(xs)[1..];
    assert xs[0].key == Keys(xs)[0];
  }

  lemma MapMinus(m: map<Text, Value>, k: Text, v: Value)
    requires k !in m
    ensures m[k := v] - {k} == m
  {
  }

  lemma NotEmpty(xs: seq<Field>)
    requires xs != []
    ensures MeaningFields(xs) != map[]
  {
    assert xs[0].key in MeaningFields(xs);
  }

  lemma {:induction false} NormalFieldsUnique(xs: seq<Field>, ys: seq<Field>)
    requires forall x :: x in xs || x in ys ==> IsNormal(x.value) && Printable(x.value)
    requires Increasing(Keys(xs)) && Increasing(Keys(ys))
    requires MeaningFields(xs) == MeaningFields(ys)
    ensures xs == ys
    decreases xs, 0
  {
    if xs != [] {
      NotEmpty(xs);
    }
    if ys != [] {
      NotEmpty(ys);
      LeastKey(xs, ys);
      NormalFormsUnique(xs[0].value, ys[0].value);
      assert Keys(xs[1..]) == Keys(xs)[1..] && Keys(ys[1..]) == Keys(ys)[1..];
      NormalFieldsUnique(xs[1..], ys[1..]);
    }
  }

  // Two values print the same text exactly when they are equal up to the order of keys, at
  // every depth.
  lemma CanonicalizeInjective(a: Json, b: Json)
    requires IsValue(a) && IsValue(b) && Printable(a) && Printable(b)
    ensures Canonicalize(a).Ok? && Canonicalize(b).Ok?
    ensures Canonicalize(a) == Canonicalize(b) <==> Meaning(a) == Meaning(b)
  {
    var x, y := Normal(a), Normal(b);
    CanonicalizePrintsNormal(a);
    CanonicalizePrintsNormal(b);
    NormalIsNormal(a);
    NormalIsNormal(b);
    NormalMeaning(a);
    NormalMeaning(b);
    if Canonicalize(a) == Canonicalize(b) {
      assert Print(x) + [] == Print(y) + [];
      PrintsUnique(x, y, [], []);
    }
    if Meaning(a) == Meaning(b) {
      NormalFormsUnique(x, y);
    }
  }

  // Equal route ids mean equal routes, unless the two texts are a collision of the hash.
  lemma RouteIdsIdentify<Hash>(a: Json, b: Json, sha256: Text -> Hash)
    requires IsValue(a) && IsValue(b) && Printable(a) && Printable(b)
    ensures Canonicalize(a).Ok? && Canonicalize(b).Ok?
    ensures RouteId(a, sha256) == RouteId(b, sha256) ==>
              Meaning(a) == Meaning(b)
              || (var t, u := Canonicalize(a).value, Canonicalize(b).value; t != u && sha256(t) == sha256(u))
    ensures Meaning(a) == Meaning(b) ==> RouteId(a, sha256) == RouteId(b, sha256)
  {
    CanonicalizeInjective(a, b);
  }
}
