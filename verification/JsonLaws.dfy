// What canonicalize of solana/scripts/route_lib.ts prints is JSON text as RFC 8259 has it, and
// reads back as the value.
module JsonLaws {
  import opened Sorting
  import opened Bytes
  import opened Decimals
  import opened CanonicalJson

  // ---------- strings: section 7 of RFC 8259 ----------

  function HexValue(c: CodeUnit): Option<nat> {
    if 48 <= c <= 57 then Some(c - 48)
    else if 97 <= c <= 102 then Some(c - 87)
    else if 65 <= c <= 70 then Some(c - 55)
    else None
  }

  // The code unit four hexadecimal digits stand for.
  function FourHex(t: Text): Option<CodeUnit>
    requires |t| == 4
  {
    var (a, b, c, d) := (HexValue(t[0]), HexValue(t[1]), HexValue(t[2]), HexValue(t[3]));
    if a.Some? && b.Some? && c.Some? && d.Some? && a.value < 16 && b.value < 16 && c.value < 16 && d.value < 16
    then Some(4096 * a.value + 256 * b.value + 16 * c.value + d.value) else None
  }

  // What the letter behind a reverse solidus stands for.
  function ShortEscape(c: CodeUnit): Option<CodeUnit> {
    if c == 34 || c == 92 || c == 47 then Some(c)
    else if c == 98 then Some(8)
    else if c == 102 then Some(12)
    else if c == 110 then Some(10)
    else if c == 114 then Some(13)
    else if c == 116 then Some(9)
    else None
  }

  // The text between the quotation marks, read.
  function Unescape(t: Text): Option<Text>
    decreases |t|
  {
    if t == [] then Some([])
    else if t[0] == 92 && |t| >= 6 && t[1] == 117 && FourHex(t[2..6]).Some? then
      match Unescape(t[6..]) case None => None case Some(rest) => Some([FourHex(t[2..6]).value] + rest)
    else if t[0] == 92 && |t| >= 2 && ShortEscape(t[1]).Some? then
      match Unescape(t[2..]) case None => None case Some(rest) => Some([ShortEscape(t[1]).value] + rest)
    else if t[0] == 92 || t[0] == 34 || t[0] < 32 then None
    else match Unescape(t[1..]) case None => None case Some(rest) => Some([t[0]] + rest)
  }

  lemma HexReads(d: nat)
    requires d < 16
    ensures HexValue(HexDigit(d)) == Some(d)
  {
  }

  lemma FourDigits(c: CodeUnit)
    ensures 4096 * (c / 4096) + 256 * (c / 256 % 16) + 16 * (c / 16 % 16) + c % 16 == c && c / 4096 < 16
  {
    assert c / 4096 == c / 16 / 16 / 16 && c / 256 == c / 16 / 16;
  }

  lemma HexUnit(c: CodeUnit)
    ensures FourHex([HexDigit(c / 4096), HexDigit(c / 256 % 16), HexDigit(c / 16 % 16), HexDigit(c % 16)]) == Some(c)
  {
    hide HexDigit, HexValue;
    FourDigits(c);
    HexReads(c / 4096);
    HexReads(c / 256 % 16);
    HexReads(c / 16 % 16);
    HexReads(c % 16);
  }

  lemma UnicodeReads(c: CodeUnit, rest: Text)
    requires Unescape(rest).Some?
    ensures Unescape(UnicodeEscape(c) + rest) == Some([c] + Unescape(rest).value)
  {
    hide FourHex, HexDigit;
    var t := UnicodeEscape(c) + rest;
    HexUnit(c);
    assert t[2..6] == [HexDigit(c / 4096), HexDigit(c / 256 % 16), HexDigit(c / 16 % 16), HexDigit(c % 16)];
    assert t[6..] == rest;
  }

  lemma ShortReads(x: CodeUnit, rest: Text)
    requires Unescape(rest).Some? && ShortEscape(x).Some?
    ensures Unescape([92, x] + rest) == Some([ShortEscape(x).value] + Unescape(rest).value)
  {
    assert ([92, x] + rest)[2..] == rest;
    assert x != 117;
  }

  lemma SelfReads(c: CodeUnit, rest: Text)
    requires Unescape(rest).Some? && c >= 32 && c != 34 && c != 92
    ensures Unescape([c] + rest) == Some([c] + Unescape(rest).value)
  {
    assert ([c] + rest)[1..] == rest;
  }

  lemma EscapeReads(c: CodeUnit, rest: Text)
    requires Unescape(rest).Some?
    ensures Unescape(Escape(c) + rest) == Some([c] + Unescape(rest).value)
  {
    hide Unescape, UnicodeEscape;
    if c in [8, 9, 10, 12, 13, 34, 92] {
      ShortReads(Escape(c)[1], rest);
    } else if c < 32 || High(c) || Low(c) {
      UnicodeReads(c, rest);
    } else {
      SelfReads(c, rest);
    }
  }

  // Seven units have a short escape; other control units and lone surrogates are written in four
  // lower-case digits; all others stand for themselves.
  lemma EscapeForms(c: CodeUnit)
    ensures |Escape(c)| == if c in [8, 9, 10, 12, 13, 34, 92] then 2
                           else if c < 32 || 0xD800 <= c < 0xE000 then 6
                           else 1
    ensures |Escape(c)| == 6 ==> forall x :: x in Escape(c) ==> !(65 <= x <= 70)
  {
  }

  // The printed string reads as the string.
  lemma {:induction false} BodyReads(s: Text)
    ensures Unescape(StringBody(s)) == Some(s)
    decreases |s|
  {
    if s != [] {
      hide Unescape, Escape;
      if |s| >= 2 && High(s[0]) && Low(s[1]) {
        BodyReads(s[2..]);
        var rest := StringBody(s[2..]);
        SelfReads(s[1], rest);
        SelfReads(s[0], [s[1]] + rest);
        assert [s[0], s[1]] + rest == [s[0]] + ([s[1]] + rest);
        assert s == [s[0]] + ([s[1]] + s[2..]);
      } else {
        BodyReads(s[1..]);
        EscapeReads(s[0], StringBody(s[1..]));
        assert s == [s[0]] + s[1..];
      }
    } else {
      assert StringBody(s) == [];
    }
  }

  predicate DenotesString(t: Text, s: Text) {
    |t| >= 2 && t[0] == 34 && t[|t| - 1] == 34 && Unescape(t[1..|t| - 1]) == Some(s)
  }

  lemma StringReads(s: Text)
    ensures DenotesString(StringText(s), s)
  {
    BodyReads(s);
    assert StringText(s)[1..|StringText(s)| - 1] == StringBody(s);
  }

  // ---------- values ----------

  function Tail(parts: seq<Text>): Text {
    if parts == [] then [] else [44] + parts[0] + Tail(parts[1..])
  }

  // The parts with commas between them.
  function Listed(parts: seq<Text>): Text {
    if parts == [] then [] else parts[0] + Tail(parts[1..])
  }

  lemma {:induction false} JoinIsListed(parts: seq<Text>)
    ensures Join(parts) == Listed(parts)
    decreases |parts|
  {
    if |parts| > 1 {
      JoinIsListed(parts[1..]);
      assert parts[1..][0] == parts[1] && parts[1..][1..] == parts[2..];
      assert [44] + (parts[1] + Tail(parts[2..])) == [44] + parts[1] + Tail(parts[2..]);
    } else if |parts| == 1 {
      assert parts[0] + [] == parts[0];
    }
  }

  // The members in the order they are printed: each of the fields once, the keys ascending by
  // code units.
  ghost predicate MemberOrder(fields: seq<Field>, at: seq<nat>) {
    && |at| == |fields| && (forall i :: 0 <= i < |at| ==> at[i] < |fields|)
    && forall i, j :: 0 <= i < j < |at| ==> Precedes(fields[at[i]].key, fields[at[j]].key)
  }

  // t is JSON text for v: literals, numbers, strings, arrays, and objects with ascending keys.
  ghost predicate Denotes(t: Text, v: Json)
    decreases v
  {
    match v
    case Null => t == [110, 117, 108, 108]
    case Bool(b) => t == if b then [116, 114, 117, 101] else [102, 97, 108, 115, 101]
    case Num(n) => t == NumberText(n)
    case Str(s) => DenotesString(t, s)
    case Arr(items) =>
      exists parts: seq<Text> ::
        && |parts| == |items| && t == [91] + Listed(parts) + [93]
        && forall i :: 0 <= i < |items| ==> Denotes(parts[i], items[i])
    case Obj(fields) =>
      exists at: seq<nat>, names: seq<Text>, parts: seq<Text> ::
        && MemberOrder(fields, at) && |names| == |parts| == |fields|
        && t == [123] + Listed(Members(names, parts)) + [125]
        && forall i :: 0 <= i < |fields| ==>
             DenotesString(names[i], fields[at[i]].key) && Denotes(parts[i], fields[at[i]].value)
    case _ => false
  }

  function Members(names: seq<Text>, parts: seq<Text>): (r: seq<Text>)
    requires |names| == |parts|
    ensures |r| == |names| && forall i :: 0 <= i < |r| ==> r[i] == names[i] + [58] + parts[i]
  {
    seq(|names|, i requires 0 <= i < |names| => names[i] + [58] + parts[i])
  }

  lemma {:induction false} KeyOrderExactly(a: Text, b: Text)
    ensures KeyOrder(a, b) <==> a == b || Precedes(a, b)
  {
    if a == [] || b == [] {
      assert b != [] ==> a[..0] == b[..0];
    } else if a[0] != b[0] {
      assert a[..0] == b[..0];
      forall k: nat | 0 < k <= |a| && k < |b| ensures a[..k] != b[..k] {
        assert a[..k][0] != b[..k][0];
      }
    } else {
      KeyOrderExactly(a[1..], b[1..]);
      PrecedesShifts(a, b);
      assert a == [a[0]] + a[1..] && b == [b[0]] + b[1..];
    }
  }

  // Where the fields of the sorted keys are.
  function Places(fields: seq<Field>, keys: seq<Text>): (at: seq<nat>)
    requires forall k :: k in keys ==> k in Keys(fields)
    ensures |at| == |keys| && forall i :: 0 <= i < |at| ==> at[i] < |fields| && fields[at[i]].key == keys[i]
    ensures forall i :: 0 <= i < |at| ==> at[i] == IndexOf(fields, keys[i])
  {
    seq(|keys|, i requires 0 <= i < |keys| => IndexOf(fields, keys[i]))
  }

  lemma KeysAscend(fields: seq<Field>)
    requires Distinct(Keys(fields))
    ensures MemberOrder(fields, Places(fields, SortedKeys(fields)))
  {
    hide KeyOrder, Precedes;
    var keys := SortedKeys(fields);
    KeyOrderPreorder();
    SortSorted(Keys(fields), KeyOrder);
    MembersOf(keys, Keys(fields));
    DistinctCounts(Keys(fields), keys);
    forall i, j | 0 <= i < j < |keys| ensures Precedes(keys[i], keys[j]) {
      KeyOrderExactly(keys[i], keys[j]);
      assert KeyOrder(keys[i], keys[j]);
    }
  }

  // ---------- canonicalize writes it ----------

  ghost predicate AllDenote(parts: seq<Text>, items: seq<Json>)
    decreases items
  {
    |parts| == |items| && forall i :: 0 <= i < |items| ==> Denotes(parts[i], items[i])
  }

  ghost predicate MembersDenote(names: seq<Text>, parts: seq<Text>, fields: seq<Field>, at: seq<nat>) {
    && |names| == |parts| == |at| && (forall i :: 0 <= i < |at| ==> at[i] < |fields|)
    && forall i :: 0 <= i < |at| ==>
         DenotesString(names[i], fields[at[i]].key) && Denotes(parts[i], fields[at[i]].value)
  }

  // Every value without a non-finite number or an unsupported part is printed as JSON text for it.
  lemma {:induction false} CanonicalizeDenotes(v: Json)
    requires IsValue(v) && Printable(v)
    ensures Canonicalize(v).Ok? && Denotes(Canonicalize(v).value, v)
    decreases v, 1
  {
    match v
    case Str(s) => StringReads(s);
    case Arr(items) =>
      ItemsDenote(items);
      var parts := CanonicalizeItems(items).value;
      JoinIsListed(parts);
      hide Join, Listed, CanonicalizeItems;
      assert Canonicalize(v).value == [91] + Listed(parts) + [93];
    case Obj(fields) =>
      var keys := SortedKeys(fields);
      var names, parts := MembersRead(fields, keys);
      MembersOf(keys, Keys(fields));
      KeysAscend(fields);
      JoinIsListed(Members(names, parts));
      ObjectDenotes(fields, keys, names, parts);
    case _ =>
  }

  lemma ObjectDenotes(fields: seq<Field>, keys: seq<Text>, names: seq<Text>, parts: seq<Text>)
    requires keys == SortedKeys(fields) && CanonicalizeKeys(fields, keys).Ok? && |keys| == |fields|
    requires |names| == |parts| && CanonicalizeKeys(fields, keys).value == Members(names, parts)
    requires Join(Members(names, parts)) == Listed(Members(names, parts))
    requires MembersDenote(names, parts, fields, Places(fields, keys)) && MemberOrder(fields, Places(fields, keys))
    ensures Canonicalize(Obj(fields)).Ok? && Denotes(Canonicalize(Obj(fields)).value, Obj(fields))
  {
    hide Join, Listed, CanonicalizeKeys, SortedKeys, IndexOf;
    var at := Places(fields, keys);
    assert Canonicalize(Obj(fields)).value == [123] + Listed(Members(names, parts)) + [125];
  }

  lemma {:induction false} ItemsDenote(items: seq<Json>)
    requires forall i :: 0 <= i < |items| ==> IsValue(items[i]) && Printable(items[i])
    ensures CanonicalizeItems(items).Ok? && AllDenote(CanonicalizeItems(items).value, items)
    decreases items, 0
  {
    if items != [] {
      CanonicalizeDenotes(items[0]);
      ItemsDenote(items[1..]);
      hide Denotes, Canonicalize;
      var parts := CanonicalizeItems(items).value;
      assert parts == [Canonicalize(items[0]).value] + CanonicalizeItems(items[1..]).value;
      forall i | 0 <= i < |items| ensures Denotes(parts[i], items[i]) {
        assert i > 0 ==> items[i] == items[1..][i - 1] && parts[i] == parts[1..][i - 1];
      }
    }
  }

  lemma {:induction false} MembersRead(fields: seq<Field>, keys: seq<Text>) returns (names: seq<Text>, parts: seq<Text>)
    requires forall k :: k in keys ==> k in Keys(fields)
    requires forall i :: 0 <= i < |fields| ==> IsValue(fields[i].value) && Printable(fields[i].value)
    ensures |names| == |parts| && CanonicalizeKeys(fields, keys) == Ok(Members(names, parts))
    ensures MembersDenote(names, parts, fields, Places(fields, keys))
    decreases fields, |keys|
  {
    if keys == [] {
      names, parts := [], [];
    } else {
      var f := fields[IndexOf(fields, keys[0])];
      CanonicalizeDenotes(f.value);
      StringReads(keys[0]);
      var ns, ps := MembersRead(fields, keys[1..]);
      hide Denotes, Canonicalize, DenotesString, IndexOf, MembersDenote, StringText;
      var name, part := StringText(keys[0]), Canonicalize(f.value).value;
      names, parts := [name] + ns, [part] + ps;
      OneMoreKey(fields, keys, names, parts);
      OneMoreMember(name, part, ns, ps, fields, Places(fields, keys));
    }
  }

  lemma OneMoreKey(fields: seq<Field>, keys: seq<Text>, names: seq<Text>, parts: seq<Text>)
    requires keys != [] && |names| == |parts| > 0 && forall k :: k in keys ==> k in Keys(fields)
    requires names[0] == StringText(keys[0])
    requires Canonicalize(fields[IndexOf(fields, keys[0])].value) == Ok(parts[0])
    requires CanonicalizeKeys(fields, keys[1..]) == Ok(Members(names[1..], parts[1..]))
    ensures CanonicalizeKeys(fields, keys) == Ok(Members(names, parts))
    ensures Places(fields, keys)[1..] == Places(fields, keys[1..])
  {
    hide StringText, IndexOf, Canonicalize;
    assert Members(names, parts) == [names[0] + [58] + parts[0]] + Members(names[1..], parts[1..]);
  }

  lemma OneMoreMember(name: Text, part: Text, names: seq<Text>, parts: seq<Text>, fields: seq<Field>, at: seq<nat>)
    requires at != [] && at[0] < |fields| && MembersDenote(names, parts, fields, at[1..])
    requires DenotesString(name, fields[at[0]].key) && Denotes(part, fields[at[0]].value)
    ensures MembersDenote([name] + names, [part] + parts, fields, at)
  {
    hide Denotes, DenotesString;
    forall i | 0 <= i < |at|
      ensures at[i] < |fields| && DenotesString(([name] + names)[i], fields[at[i]].key)
              && Denotes(([part] + parts)[i], fields[at[i]].value)
    {
      assert i > 0 ==> at[i] == at[1..][i - 1];
    }
  }
}
