/** The canonical text that evidence is hashed over: keys in order, absent fields
    dropped. Two records have the same text exactly when they mean the same value. */
module CanonicalJson {
  import opened Refs
  import opened Sorting
  import opened RefLists
  import opened DecimalText

  datatype Field = Field(key: string, value: Json)

  /** A JavaScript value as `JSON.stringify` sees it. A finite number is its printed
      text; a number that is not finite prints as null. */
  datatype Json =
    | Null
    | Undefined
    | NonFinite(negative: bool)
    | Bool(b: bool)
    | Number(text: string)
    | Str(text: string)
    | Arr(items: seq<Json>)
    | Obj(fields: seq<Field>)

  /** What the text can tell apart. */
  datatype Value =
    | VNull
    | VBool(b: bool)
    | VNumber(text: string)
    | VStr(text: string)
    | VArr(items: seq<Value>)
    | VObj(fields: map<string, Value>)

  predicate NumberChar(c: char) {
    IsDigit(c) || c == '-' || c == '+' || c == '.' || c == 'e'
  }

  const MAX_INDEX := 4294967294

  /** A key that an object lists among its indices: a canonical whole number. */
  predicate IndexKey(k: string) {
    AllDigits(k) && k != "" && (k[0] == '0' ==> k == "0") && DigitsValue(k) <= MAX_INDEX
  }

  /** Those are the printed whole numbers up to the highest index. */
  lemma IndexKeyIs(k: string)
    ensures IndexKey(k) <==> exists n: nat :: n <= 4294967294 && k == NatText(n)
  {
    if IndexKey(k) {
      CanonicalDigits(k);
    }
    if n: nat :| n <= 4294967294 && k == NatText(n) {
      NatTextValue(n);
      NatTextLead(n);
    }
  }

  lemma {:induction false} NatTextLead(n: nat)
    ensures NatText(n) != "" && AllDigits(NatText(n)) && (NatText(n)[0] == '0' ==> NatText(n) == "0")
  {
    if n >= 10 { NatTextLead(n / 10); }
  }

  lemma {:induction false} CanonicalDigits(k: string)
    requires AllDigits(k) && k != "" && (k[0] == '0' ==> k == "0")
    ensures k == NatText(DigitsValue(k))
  {
    var m := k[..|k| - 1];
    if m != "" {
      CanonicalDigits(m);
      PositiveDigits(m);
      assert k == m + [k[|k| - 1]];
    } else {
      assert k == [k[0]] && DigitsValue(m) == 0;
    }
  }

  lemma {:induction false} PositiveDigits(k: string)
    requires AllDigits(k) && k != "" && k[0] != '0'
    ensures DigitsValue(k) > 0
  {
    if |k| > 1 { PositiveDigits(k[..|k| - 1]); } else { assert DigitsValue(k[..0]) == 0; }
  }

  /** What every object lists first: index keys, from the lowest up. The other keys
      follow in any order. */
  ghost predicate Listed(fs: seq<Field>) {
    forall i, j :: 0 <= i < j < |fs| && IndexKey(fs[j].key) ==>
      IndexKey(fs[i].key) && DigitsValue(fs[i].key) < DigitsValue(fs[j].key)
  }

  /** A printed number, and objects that list one field for each name, indices first. */
  ghost predicate WellFormed(v: Json) {
    match v
    case Number(text) => text != "" && text[0] != 'e' && forall i :: 0 <= i < |text| ==> NumberChar(text[i])
    case Arr(items) => forall i :: 0 <= i < |items| ==> WellFormed(items[i])
    case Obj(fields) =>
      && (forall i, j :: 0 <= i < j < |fields| ==> fields[i].key != fields[j].key)
      && Listed(fields)
      && (forall i :: 0 <= i < |fields| ==> WellFormed(fields[i].value))
    case _ => true
  }

  // ---------------------------------------------------------------------- quoting

  function Hex(d: nat): char
    requires d < 16
  {
    if d < 10 then ('0' as int + d) as char else ('a' as int + (d - 10)) as char
  }

  /** One character inside a JSON string. */
  function Escape(c: char): (s: string)
    ensures s != "" && s[0] != '"' && '\0' !in s
  {
    if c == '"' then "\\\""
    else if c == '\\' then "\\\\"
    else if c as int == 8 then "\\b"
    else if c as int == 9 then "\\t"
    else if c as int == 10 then "\\n"
    else if c as int == 12 then "\\f"
    else if c as int == 13 then "\\r"
    else if c < ' ' then ['\\', 'u', '0', '0', Hex(c as int / 16), Hex(c as int % 16)]
    else [c]
  }

  function EscapeAll(s: string): (r: string)
    ensures '\0' !in r
  {
    if s == "" then "" else Escape(s[0]) + EscapeAll(s[1..])
  }

  /** `JSON.stringify(s)`. */
  function Quote(s: string): string {
    "\"" + EscapeAll(s) + "\""
  }

  lemma SameHead(a: string, x: string, b: string, y: string)
    requires a + x == b + y && |a| <= |b|
    ensures forall i :: 0 <= i < |a| ==> a[i] == b[i]
    ensures |a| == |b| ==> a == b && x == y
  {
    forall i | 0 <= i < |a| ensures a[i] == b[i] {
      assert (a + x)[i] == a[i] && (b + y)[i] == b[i];
    }
    if |a| == |b| {
      assert a == b;
      assert x == (a + x)[|a|..] == (b + y)[|b|..] == y;
    }
  }

  lemma SameTail(a: string, b: string, s: string)
    requires a + s == b + s
    ensures a == b
  {
    assert |a| + |s| == |a + s| == |b + s| == |b| + |s|;
    SameHead(a, s, b, s);
  }

  lemma HexDigits(c: nat, d: nat)
    requires c < 256 && d < 256 && Hex(c / 16) == Hex(d / 16) && Hex(c % 16) == Hex(d % 16)
    ensures c == d
  {
    assert c / 16 == d / 16 && c % 16 == d % 16;
  }

  lemma EscapePrefix(c: char, d: char)
    requires |Escape(c)| <= |Escape(d)| && forall i :: 0 <= i < |Escape(c)| ==> Escape(c)[i] == Escape(d)[i]
    ensures c == d
  {
    var a, b := Escape(c), Escape(d);
    assert a[0] == b[0];
    if |a| > 1 {
      assert a[1] == b[1];
      if |a| > 2 {
        assert a[4] == b[4] && a[5] == b[5];
        HexDigits(c as int, d as int);
      }
    }
  }

  /** No escape is the start of another. */
  lemma EscapeReadable(c: char, x: string, d: char, y: string)
    requires Escape(c) + x == Escape(d) + y
    ensures c == d && x == y
  {
    hide Escape;
    var a, b := Escape(c), Escape(d);
    if |a| <= |b| {
      SameHead(a, x, b, y);
      EscapePrefix(c, d);
      SameHead(a, x, b, y);
    } else {
      SameHead(b, y, a, x);
      EscapePrefix(d, c);
    }
  }

  lemma Associates(a: string, b: string, c: string)
    ensures (a + b) + c == a + (b + c)
  {
  }

  lemma {:induction false} EscapeAllHead(a: string, x: string)
    ensures var p := EscapeAll(a) + "\"" + x;
      if a == "" then p[0] == '"' && p[1..] == x
      else p[0] == Escape(a[0])[0] && p == Escape(a[0]) + (EscapeAll(a[1..]) + "\"" + x)
  {
    hide Escape;
    if a != "" {
      Associates(Escape(a[0]), EscapeAll(a[1..]), "\"");
      Associates(Escape(a[0]), EscapeAll(a[1..]) + "\"", x);
    } else {
      assert EscapeAll(a) + "\"" + x == "\"" + x;
    }
  }

  lemma {:induction false} EscapesReadable(a: string, x: string, b: string, y: string)
    requires EscapeAll(a) + "\"" + x == EscapeAll(b) + "\"" + y
    ensures a == b && x == y
  {
    hide Escape, EscapeAll;
    EscapeAllHead(a, x);
    EscapeAllHead(b, y);
    assert a == "" <==> b == "";
    if a != "" {
      EscapeReadable(a[0], EscapeAll(a[1..]) + "\"" + x, b[0], EscapeAll(b[1..]) + "\"" + y);
      EscapesReadable(a[1..], x, b[1..], y);
      assert a == [a[0]] + a[1..] && b == [b[0]] + b[1..];
    }
  }

  lemma QuoteReadable(a: string, x: string, b: string, y: string)
    requires Quote(a) + x == Quote(b) + y
    ensures a == b && x == y
  {
    QuoteSplit(a, x);
    QuoteSplit(b, y);
    hide EscapeAll, Quote;
    SameHead("\"", EscapeAll(a) + "\"" + x, "\"", EscapeAll(b) + "\"" + y);
    EscapesReadable(a, x, b, y);
  }

  lemma {:induction false} QuoteSplit(a: string, x: string)
    ensures Quote(a) + x == "\"" + (EscapeAll(a) + "\"" + x)
  {
    hide EscapeAll;
    Associates("\"", EscapeAll(a), "\"");
    Associates("\"", EscapeAll(a) + "\"", x);
  }

  // --------------------------------------------------------------------- printing

  /** The sort key of a text in the host's locale: `a.localeCompare(b)` compares sort
      keys, and texts of one sort key tie. */
  type Collation = string -> string

  function FieldOrder(c: Collation): (Field, Field) -> bool {
    (f: Field, g: Field) => !NameLess(c(g.key), c(f.key))
  }

  /** The fields that are not undefined. */
  function Kept(fs: seq<Field>): (r: seq<Field>)
    ensures forall f :: f in r <==> f in fs && !f.value.Undefined?
  {
    if fs == [] then [] else Kept(fs[..|fs| - 1]) + if fs[|fs| - 1].value.Undefined? then [] else [fs[|fs| - 1]]
  }

  /** The kept fields in the order of the collation; the sort is stable. */
  function InOrder(c: Collation, fs: seq<Field>): (r: seq<Field>)
    ensures forall f :: f in r <==> f in fs && !f.value.Undefined?
  {
    SameElements(Sort(FieldOrder(c), Kept(fs)), Kept(fs));
    Sort(FieldOrder(c), Kept(fs))
  }

  /** A part of an array or of an object, as it is printed between the commas. */
  datatype Part = Item(value: Json) | Named(key: string, value: Json)

  function Items(items: seq<Json>): (r: seq<Part>)
    ensures |r| == |items| && forall i :: 0 <= i < |r| ==> r[i] == Item(items[i])
  {
    seq(|items|, i requires 0 <= i < |items| => Item(items[i]))
  }

  function Names(fs: seq<Field>): (r: seq<Part>)
    ensures |r| == |fs| && forall i :: 0 <= i < |r| ==> r[i] == Named(fs[i].key, fs[i].value)
  {
    seq(|fs|, i requires 0 <= i < |fs| => Named(fs[i].key, fs[i].value))
  }

  ghost predicate Within(parts: seq<Part>, v: Json) {
    forall i :: 0 <= i < |parts| ==> parts[i].value < v
  }

  lemma FieldsWithin(c: Collation, v: Json)
    requires v.Obj?
    ensures Within(Names(InOrder(c, v.fields)), v)
  {
    var fs := InOrder(c, v.fields);
    forall i | 0 <= i < |fs| ensures fs[i].value < v {
      assert fs[i] in v.fields;
      var k :| 0 <= k < |v.fields| && v.fields[k] == fs[i];
    }
  }

  /** `canonical(value)`. */
  function Canonical(c: Collation, v: Json): string
    decreases v, 1, 0
  {
    match v
    case Null => "null"
    case Undefined => "null"
    case NonFinite(_) => "null"
    case Bool(b) => if b then "true" else "false"
    case Number(text) => text
    case Str(text) => Quote(text)
    case Arr(items) => "[" + Joined(c, v, Items(items)) + "]"
    case Obj(fields) =>
      FieldsWithin(c, v);
      "{" + Joined(c, v, Names(InOrder(c, fields))) + "}"
  }

  function PartText(c: Collation, ghost v: Json, p: Part): string
    requires p.value < v
    decreases v, 0, 0
  {
    if p.Named? then Quote(p.key) + ":" + Canonical(c, p.value) else Canonical(c, p.value)
  }

  /** The texts of the parts with commas between them. */
  function Joined(c: Collation, ghost v: Json, parts: seq<Part>): string
    requires Within(parts, v)
    decreases v, 0, |parts|
  {
    if parts == [] then ""
    else if |parts| == 1 then PartText(c, v, parts[0])
    else PartText(c, v, parts[0]) + "," + Joined(c, v, parts[1..])
  }

  // ------------------------------------------------------------- unique readability

  ghost function Kind(v: Json): nat {
    match v
    case Null => 0
    case Undefined => 0
    case NonFinite(_) => 0
    case Bool(_) => 1
    case Number(_) => 2
    case Str(_) => 3
    case Arr(_) => 4
    case Obj(_) => 5
  }

  ghost function KindOf(c: char): nat {
    if c == 'n' then 0
    else if c == 't' || c == 'f' then 1
    else if NumberChar(c) then 2
    else if c == '"' then 3
    else if c == '[' then 4
    else if c == '{' then 5
    else 6
  }

  /** The first character tells the kind. */
  lemma {:induction false} CanonicalHead(c: Collation, v: Json)
    requires WellFormed(v)
    ensures Canonical(c, v) != "" && KindOf(Canonical(c, v)[0]) == Kind(v)
  {
    hide Joined, InOrder, Items, Names;
  }

  lemma {:induction false} SameKind(c: Collation, v: Json, s: string, w: Json, t: string)
    requires WellFormed(v) && WellFormed(w) && Canonical(c, v) + s == Canonical(c, w) + t
    ensures Kind(v) == Kind(w)
  {
    CanonicalHead(c, v);
    CanonicalHead(c, w);
    hide Canonical, Kind, KindOf;
    assert Canonical(c, v)[0] == (Canonical(c, v) + s)[0] == (Canonical(c, w) + t)[0] == Canonical(c, w)[0];
  }

  /** What may follow a value inside another one. */
  predicate Follows(s: string) {
    s == "" || s[0] == ',' || s[0] == ']' || s[0] == '}'
  }

  lemma NumberEnds(a: string, s: string, b: string, t: string)
    requires a + s == b + t && Follows(s) && forall i :: 0 <= i < |b| ==> NumberChar(b[i])
    ensures |a| >= |b|
  {
    var r := b + t;
    assert forall i :: 0 <= i < |b| ==> r[i] == b[i];
    assert |a| < |a + s| ==> !NumberChar((a + s)[|a|]);
  }

  lemma NumbersReadable(a: string, s: string, b: string, t: string)
    requires a + s == b + t && Follows(s) && Follows(t)
    requires (forall i :: 0 <= i < |a| ==> NumberChar(a[i])) && (forall i :: 0 <= i < |b| ==> NumberChar(b[i]))
    ensures a == b && s == t
  {
    NumberEnds(a, s, b, t);
    NumberEnds(b, t, a, s);
    SameHead(a, s, b, t);
  }

  /** The value a text stands for: objects without order, absent fields gone. */
  ghost function Meaning(v: Json): Value {
    match v
    case Null => VNull
    case Undefined => VNull
    case NonFinite(_) => VNull
    case Bool(b) => VBool(b)
    case Number(text) => VNumber(text)
    case Str(text) => VStr(text)
    case Arr(items) => VArr(seq(|items|, i requires 0 <= i < |items| => Meaning(items[i])))
    case Obj(fields) => VObj(FieldsMeaning(fields))
  }

  ghost function FieldsMeaning(fs: seq<Field>): map<string, Value> {
    if fs == [] then map[]
    else
      var m, f := FieldsMeaning(fs[..|fs| - 1]), fs[|fs| - 1];
      if f.value.Undefined? then m else m[f.key := Meaning(f.value)]
  }

  ghost predicate SamePart(p: Part, q: Part) {
    p.Named? == q.Named? && (p.Named? ==> p.key == q.key) && Meaning(p.value) == Meaning(q.value)
  }

  ghost predicate SameParts(xs: seq<Part>, ys: seq<Part>) {
    |xs| == |ys| && forall i :: 0 <= i < |xs| ==> SamePart(xs[i], ys[i])
  }

  ghost predicate SameTexts(c: Collation, v: Json, xs: seq<Part>, w: Json, ys: seq<Part>)
    requires Within(xs, v) && Within(ys, w)
  {
    |xs| == |ys| && forall i :: 0 <= i < |xs| ==> PartText(c, v, xs[i]) == PartText(c, w, ys[i])
  }

  /** Parts of one kind, with well formed values inside `v`. */
  ghost predicate PartsOf(xs: seq<Part>, v: Json, named: bool) {
    Within(xs, v) && forall i :: 0 <= i < |xs| ==> xs[i].Named? == named && WellFormed(xs[i].value)
  }

  /** What is printed after a part: the others, the closing bracket and what follows. */
  ghost function Rest(c: Collation, v: Json, parts: seq<Part>, close: string, s: string): string
    requires Within(parts, v)
  {
    if parts == [] then close + s
    else "," + (PartText(c, v, parts[0]) + Rest(c, v, parts[1..], close, s))
  }

  lemma {:induction false} JoinedRest(c: Collation, v: Json, parts: seq<Part>, close: string, s: string)
    requires parts != [] && Within(parts, v)
    ensures Joined(c, v, parts) + (close + s) == PartText(c, v, parts[0]) + Rest(c, v, parts[1..], close, s)
  {
    hide PartText;
    if |parts| > 1 {
      var more := parts[1..];
      JoinedRest(c, v, more, close, s);
      Associates(PartText(c, v, parts[0]), ",", Joined(c, v, more));
      Associates(PartText(c, v, parts[0]), "," + Joined(c, v, more), close + s);
      Associates(",", Joined(c, v, more), close + s);
    }
  }

  lemma {:induction false} RestFollows(c: Collation, v: Json, parts: seq<Part>, close: string, s: string)
    requires Within(parts, v) && (close == "]" || close == "}")
    ensures Follows(Rest(c, v, parts, close, s))
    ensures var r := Rest(c, v, parts, close, s);
      r != "" && (r[0] == ',' <==> parts != [])
  {
    hide PartText;
  }

  lemma {:induction false} PartHead(c: Collation, v: Json, p: Part, named: bool)
    requires p.value < v && WellFormed(p.value) && p.Named? == named
    ensures PartText(c, v, p) != "" && KindOf(PartText(c, v, p)[0]) != 6
  {
    CanonicalHead(c, p.value);
    hide Canonical;
  }

  /** Nothing but the end of the list starts with the closing bracket. */
  lemma {:induction false} JoinedHead(c: Collation, v: Json, xs: seq<Part>, named: bool, close: string, s: string)
    requires PartsOf(xs, v, named) && (close == "]" || close == "}")
    ensures var r := Joined(c, v, xs) + (close + s);
      r != "" && (KindOf(r[0]) == 6 <==> xs == [])
  {
    if xs != [] {
      JoinedRest(c, v, xs, close, s);
      PartHead(c, v, xs[0], named);
    }
    hide PartText, Rest;
  }

  lemma {:induction false} PartReadable(c: Collation, v: Json, p: Part, s: string, w: Json, q: Part, t: string)
    requires p.value < v && q.value < w && WellFormed(p.value) && WellFormed(q.value) && p.Named? == q.Named?
    requires PartText(c, v, p) + s == PartText(c, w, q) + t && Follows(s) && Follows(t)
    ensures SamePart(p, q) && s == t && PartText(c, v, p) == PartText(c, w, q)
    decreases v, 0, 0
  {
    hide Canonical, Quote, Meaning, WellFormed, Follows;
    if p.Named? {
      NamedSplit(c, v, p, s);
      NamedSplit(c, w, q, t);
      QuoteReadable(p.key, ":" + (Canonical(c, p.value) + s), q.key, ":" + (Canonical(c, q.value) + t));
      SameHead(":", Canonical(c, p.value) + s, ":", Canonical(c, q.value) + t);
    }
    Readable(c, p.value, s, q.value, t);
    hide PartText;
    SameTail(PartText(c, v, p), PartText(c, w, q), s);
  }

  lemma {:induction false} NamedSplit(c: Collation, v: Json, p: Part, s: string)
    requires p.value < v && p.Named?
    ensures PartText(c, v, p) + s == Quote(p.key) + (":" + (Canonical(c, p.value) + s))
  {
    hide Canonical, Quote;
    Associates(Quote(p.key), ":", Canonical(c, p.value));
    Associates(Quote(p.key), ":" + Canonical(c, p.value), s);
    Associates(":", Canonical(c, p.value), s);
  }

  lemma {:induction false} RestReadable(c: Collation, v: Json, xs: seq<Part>, s: string, w: Json, ys: seq<Part>,
                                        t: string, named: bool, close: string)
    requires PartsOf(xs, v, named) && PartsOf(ys, w, named) && (close == "]" || close == "}")
    requires Rest(c, v, xs, close, s) == Rest(c, w, ys, close, t)
    ensures SameParts(xs, ys) && SameTexts(c, v, xs, w, ys) && s == t
    decreases v, 0, |xs|
  {
    FirstPart(xs, v, named);
    FirstPart(ys, w, named);
    hide PartText, WellFormed, SamePart, SameParts, SameTexts, Follows, PartsOf, Within;
    NoParts();
    NoTexts(c, v, w);
    RestFollows(c, v, xs, close, s);
    RestFollows(c, w, ys, close, t);
    if xs == [] {
      SameHead(close, s, close, t);
    } else {
      var x, y := Rest(c, v, xs[1..], close, s), Rest(c, w, ys[1..], close, t);
      SameHead(",", PartText(c, v, xs[0]) + x, ",", PartText(c, w, ys[0]) + y);
      RestFollows(c, v, xs[1..], close, s);
      RestFollows(c, w, ys[1..], close, t);
      hide Rest;
      PartReadable(c, v, xs[0], x, w, ys[0], y);
      RestReadable(c, v, xs[1..], s, w, ys[1..], t, named, close);
      MoreParts(xs, ys);
      MoreTexts(c, v, xs, w, ys);
    }
  }

  lemma NoParts()
    ensures SameParts([], [])
  {
  }

  lemma NoTexts(c: Collation, v: Json, w: Json)
    ensures SameTexts(c, v, [], w, [])
  {
  }

  lemma MoreTexts(c: Collation, v: Json, xs: seq<Part>, w: Json, ys: seq<Part>)
    requires Within(xs, v) && Within(ys, w) && xs != [] && ys != [] && Within(xs[1..], v) && Within(ys[1..], w)
    requires PartText(c, v, xs[0]) == PartText(c, w, ys[0]) && SameTexts(c, v, xs[1..], w, ys[1..])
    ensures SameTexts(c, v, xs, w, ys)
  {
    hide PartText;
    forall i | 0 <= i < |xs| ensures PartText(c, v, xs[i]) == PartText(c, w, ys[i]) {
      if i > 0 { assert PartText(c, v, xs[1..][i - 1]) == PartText(c, w, ys[1..][i - 1]); }
    }
  }

  lemma MoreParts(xs: seq<Part>, ys: seq<Part>)
    requires xs != [] && ys != [] && SamePart(xs[0], ys[0]) && SameParts(xs[1..], ys[1..])
    ensures SameParts(xs, ys)
  {
    hide SamePart;
    forall i | 0 <= i < |xs| ensures SamePart(xs[i], ys[i]) {
      if i > 0 { assert SamePart(xs[1..][i - 1], ys[1..][i - 1]); }
    }
  }

  lemma FirstPart(xs: seq<Part>, v: Json, named: bool)
    requires PartsOf(xs, v, named)
    ensures Within(xs, v)
    ensures xs != [] ==>
      PartsOf(xs[1..], v, named) && Within(xs[1..], v) && xs[0].value < v && WellFormed(xs[0].value)
        && xs[0].Named? == named
  {
    hide WellFormed;
  }

  lemma {:induction false} JoinedReadable(c: Collation, v: Json, xs: seq<Part>, s: string, w: Json, ys: seq<Part>,
                                          t: string, named: bool, close: string)
    requires PartsOf(xs, v, named) && PartsOf(ys, w, named) && (close == "]" || close == "}")
    requires Joined(c, v, xs) + (close + s) == Joined(c, w, ys) + (close + t)
    ensures SameParts(xs, ys) && SameTexts(c, v, xs, w, ys) && s == t
    decreases v, 0, |xs| + 1
  {
    FirstPart(xs, v, named);
    FirstPart(ys, w, named);
    hide PartText, WellFormed, SamePart, SameParts, SameTexts, Follows, Rest, KindOf, PartsOf, Within;
    JoinedHead(c, v, xs, named, close, s);
    JoinedHead(c, w, ys, named, close, t);
    if xs == [] {
      assert Joined(c, v, xs) + (close + s) == close + s;
      assert Joined(c, w, ys) + (close + t) == close + t;
      SameHead(close, s, close, t);
      NoParts();
      NoTexts(c, v, w);
    } else {
      hide Joined;
      JoinedRest(c, v, xs, close, s);
      JoinedRest(c, w, ys, close, t);
      var x, y := Rest(c, v, xs[1..], close, s), Rest(c, w, ys[1..], close, t);
      RestFollows(c, v, xs[1..], close, s);
      RestFollows(c, w, ys[1..], close, t);
      PartReadable(c, v, xs[0], x, w, ys[0], y);
      RestReadable(c, v, xs[1..], s, w, ys[1..], t, named, close);
      MoreParts(xs, ys);
      MoreTexts(c, v, xs, w, ys);
    }
  }

  lemma {:induction false} ArrayParts(v: Json)
    requires v.Arr? && WellFormed(v)
    ensures PartsOf(Items(v.items), v, false)
  {
  }

  lemma {:induction false} ObjectParts(c: Collation, v: Json)
    requires v.Obj? && WellFormed(v)
    ensures PartsOf(Names(InOrder(c, v.fields)), v, true)
  {
    FieldsWithin(c, v);
    var fs := InOrder(c, v.fields);
    forall i | 0 <= i < |fs| ensures WellFormed(fs[i].value) {
      assert fs[i] in v.fields;
      var k :| 0 <= k < |v.fields| && v.fields[k] == fs[i];
    }
  }

  /** No text is the text of two values, nor the start of the text of another. */
  lemma {:induction false} Readable(c: Collation, v: Json, s: string, w: Json, t: string)
    requires WellFormed(v) && WellFormed(w)
    requires Canonical(c, v) + s == Canonical(c, w) + t && Follows(s) && Follows(t)
    ensures Meaning(v) == Meaning(w) && s == t
    decreases v, 1, 0
  {
    SameKind(c, v, s, w, t);
    hide Follows, Quote, Joined, InOrder, Items, Names;
    match v
    case Number(a) => NumbersReadable(a, s, w.text, t);
    case Str(a) => QuoteReadable(a, s, w.text, t);
    case Arr(items) => ArraysReadable(c, v, s, w, t);
    case Obj(fields) => ObjectsReadable(c, v, s, w, t);
    case Bool(_) =>
      assert Canonical(c, v)[0] == (Canonical(c, v) + s)[0] == (Canonical(c, w) + t)[0] == Canonical(c, w)[0];
      SameHead(Canonical(c, v), s, Canonical(c, w), t);
    case _ => SameHead("null", s, "null", t);
  }

  lemma {:induction false} ArraysReadable(c: Collation, v: Json, s: string, w: Json, t: string)
    requires v.Arr? && w.Arr? && WellFormed(v) && WellFormed(w)
    requires Canonical(c, v) + s == Canonical(c, w) + t
    ensures Meaning(v) == Meaning(w) && s == t
    decreases v, 0, |Items(v.items)| + 2
  {
    var xs, ys := Items(v.items), Items(w.items);
    ArrayParts(v);
    ArrayParts(w);
    Bracketed(c, v, xs, "[", "]", s);
    Bracketed(c, w, ys, "[", "]", t);
    hide Joined, PartsOf;
    SameHead("[", Joined(c, v, xs) + ("]" + s), "[", Joined(c, w, ys) + ("]" + t));
    JoinedReadable(c, v, xs, s, w, ys, t, false, "]");
    SameItems(v.items, w.items);
  }

  lemma {:induction false} Bracketed(c: Collation, v: Json, xs: seq<Part>, open: string, close: string, s: string)
    requires Within(xs, v)
    ensures open + Joined(c, v, xs) + close + s == open + (Joined(c, v, xs) + (close + s))
  {
    hide Joined;
    Associates(open, Joined(c, v, xs), close);
    Associates(open, Joined(c, v, xs) + close, s);
    Associates(Joined(c, v, xs), close, s);
  }

  lemma SameItems(xs: seq<Json>, ys: seq<Json>)
    requires SameParts(Items(xs), Items(ys))
    ensures Meaning(Arr(xs)) == Meaning(Arr(ys))
  {
    var a, b := Meaning(Arr(xs)).items, Meaning(Arr(ys)).items;
    forall i | 0 <= i < |xs| ensures a[i] == b[i] { assert SamePart(Items(xs)[i], Items(ys)[i]); }
    assert a == b;
  }

  lemma {:induction false} ObjectsReadable(c: Collation, v: Json, s: string, w: Json, t: string)
    requires v.Obj? && w.Obj? && WellFormed(v) && WellFormed(w)
    requires Canonical(c, v) + s == Canonical(c, w) + t
    ensures Meaning(v) == Meaning(w) && s == t
    decreases v, 0, |Names(InOrder(c, v.fields))| + 2
  {
    var xs, ys := Names(InOrder(c, v.fields)), Names(InOrder(c, w.fields));
    ObjectParts(c, v);
    ObjectParts(c, w);
    Bracketed(c, v, xs, "{", "}", s);
    Bracketed(c, w, ys, "{", "}", t);
    hide Joined, PartsOf, InOrder, Names;
    SameHead("{", Joined(c, v, xs) + ("}" + s), "{", Joined(c, w, ys) + ("}" + t));
    JoinedReadable(c, v, xs, s, w, ys, t, true, "}");
    SameFields(c, v.fields, w.fields);
  }

  ghost predicate KeysDiffer(fs: seq<Field>) {
    forall i, j :: 0 <= i < j < |fs| ==> fs[i].key != fs[j].key
  }

  ghost predicate KeepsKey(fs: seq<Field>, k: string) {
    exists f :: f in fs && !f.value.Undefined? && f.key == k
  }

  ghost predicate HoldsField(m: map<string, Value>, f: Field) {
    !f.value.Undefined? ==> f.key in m && m[f.key] == Meaning(f.value)
  }

  /** The map holds the kept fields and nothing else. */
  ghost predicate Describes(m: map<string, Value>, fs: seq<Field>) {
    && (forall k :: k in m <==> KeepsKey(fs, k))
    && (forall f :: f in fs ==> HoldsField(m, f))
  }

  lemma {:induction false} FieldsMeaningIs(fs: seq<Field>)
    requires KeysDiffer(fs)
    ensures Describes(FieldsMeaning(fs), fs)
  {
    hide Meaning;
    if fs != [] {
      var m := fs[..|fs| - 1];
      FieldsMeaningIs(m);
      DescribesMore(FieldsMeaning(m), fs);
    }
  }

  lemma OtherKeys(fs: seq<Field>)
    requires fs != [] && KeysDiffer(fs)
    ensures forall f :: f in fs[..|fs| - 1] ==> f.key != fs[|fs| - 1].key
  {
    var before := fs[..|fs| - 1];
    forall f | f in before ensures f.key != fs[|fs| - 1].key {
      var i :| 0 <= i < |before| && before[i] == f;
      assert fs[i] == f;
    }
  }

  lemma LastKey(fs: seq<Field>, k: string)
    requires fs != []
    ensures var f := fs[|fs| - 1];
      KeepsKey(fs, k) <==> KeepsKey(fs[..|fs| - 1], k) || (!f.value.Undefined? && f.key == k)
  {
    assert fs == fs[..|fs| - 1] + [fs[|fs| - 1]];
  }

  lemma DescribesMore(m: map<string, Value>, fs: seq<Field>)
    requires fs != [] && KeysDiffer(fs) && Describes(m, fs[..|fs| - 1])
    ensures var f := fs[|fs| - 1];
      Describes(if f.value.Undefined? then m else m[f.key := Meaning(f.value)], fs)
  {
    hide Meaning, KeysDiffer;
    var before, last := fs[..|fs| - 1], fs[|fs| - 1];
    assert fs == before + [last];
    var r := if last.value.Undefined? then m else m[last.key := Meaning(last.value)];
    OtherKeys(fs);
    forall f | f in fs ensures HoldsField(r, f) {
      if f != last { assert f in before && HoldsField(m, f); }
    }
    hide KeepsKey, HoldsField;
    forall k ensures k in r <==> KeepsKey(fs, k) { LastKey(fs, k); }
  }

  lemma {:induction false} SameFields(c: Collation, fs: seq<Field>, gs: seq<Field>)
    requires KeysDiffer(fs) && KeysDiffer(gs) && SameParts(Names(InOrder(c, fs)), Names(InOrder(c, gs)))
    ensures FieldsMeaning(fs) == FieldsMeaning(gs)
  {
    hide *;
    FieldsMeaningIs(fs);
    FieldsMeaningIs(gs);
    SamePartsFlip(Names(InOrder(c, fs)), Names(InOrder(c, gs)));
    FieldsMatched(c, fs, gs, FieldsMeaning(fs), FieldsMeaning(gs));
    FieldsMatched(c, gs, fs, FieldsMeaning(gs), FieldsMeaning(fs));
  }

  lemma FieldsMatched(c: Collation, fs: seq<Field>, gs: seq<Field>, a: map<string, Value>, b: map<string, Value>)
    requires SameParts(Names(InOrder(c, fs)), Names(InOrder(c, gs)))
    requires Describes(a, fs) && Describes(b, gs)
    ensures forall k :: k in a ==> k in b && a[k] == b[k]
  {
    hide *;
    forall k | k in a ensures k in b && a[k] == b[k] { FieldMatched(c, fs, gs, a, b, k); }
  }

  lemma SamePartsFlip(xs: seq<Part>, ys: seq<Part>)
    requires SameParts(xs, ys)
    ensures SameParts(ys, xs)
  {
    hide Meaning;
    forall i | 0 <= i < |ys| ensures SamePart(ys[i], xs[i]) { assert SamePart(xs[i], ys[i]); }
  }

  lemma FieldMatched(c: Collation, fs: seq<Field>, gs: seq<Field>, a: map<string, Value>, b: map<string, Value>,
                     k: string)
    requires SameParts(Names(InOrder(c, fs)), Names(InOrder(c, gs)))
    requires Describes(a, fs) && Describes(b, gs) && k in a
    ensures k in b && a[k] == b[k]
  {
    hide Meaning;
    assert KeepsKey(fs, k);
    var f :| f in fs && !f.value.Undefined? && f.key == k;
    var g := Counterpart(c, fs, gs, f);
    assert HoldsField(a, f) && HoldsField(b, g);
  }

  lemma Counterpart(c: Collation, fs: seq<Field>, gs: seq<Field>, f: Field) returns (g: Field)
    requires SameParts(Names(InOrder(c, fs)), Names(InOrder(c, gs)))
    requires f in fs && !f.value.Undefined?
    ensures g in gs && !g.value.Undefined? && g.key == f.key && Meaning(g.value) == Meaning(f.value)
  {
    hide Meaning;
    var xs, ys := InOrder(c, fs), InOrder(c, gs);
    assert f in xs;
    var i :| 0 <= i < |xs| && xs[i] == f;
    assert SamePart(Names(xs)[i], Names(ys)[i]);
    g := ys[i];
  }

  // -------------------------------------------------------- the other direction

  lemma FieldsOrdered(c: Collation)
    ensures TotalPreorder(FieldOrder(c))
  {
    var le := FieldOrder(c);
    forall f: Field, g: Field ensures le(f, g) || le(g, f) { NameTrichotomy(c(f.key), c(g.key)); }
    forall f: Field, g: Field, h: Field | le(f, g) && le(g, h) ensures le(f, h) {
      TotalOrder(Ref(c(f.key)), Ref(c(g.key)), Ref(c(h.key)));
      TotalOrder(Ref(c(h.key)), Ref(c(f.key)), Ref(c(g.key)));
      TotalOrder(Ref(c(g.key)), Ref(c(h.key)), Ref(c(f.key)));
    }
  }

  lemma {:induction false} KeptDistinct(fs: seq<Field>)
    requires KeysDiffer(fs)
    ensures Distinct(Kept(fs))
  {
    if fs != [] {
      KeptDistinct(fs[..|fs| - 1]);
      OtherKeys(fs);
    }
  }

  /** No two kept fields of an object that could be listed either way tie, here or
      further inside. */
  ghost predicate Tieless(c: Collation, v: Json) {
    match v
    case Arr(items) => forall i :: 0 <= i < |items| ==> Tieless(c, items[i])
    case Obj(fields) =>
      && TielessKeys(c, fields)
      && (forall i :: 0 <= i < |fields| && !fields[i].value.Undefined? ==> Tieless(c, fields[i].value))
    case _ => true
  }

  /** Index keys never do harm: there is only one order to list them in. */
  ghost predicate TielessKeys(c: Collation, fs: seq<Field>) {
    forall k, l :: KeepsKey(fs, k) && KeepsKey(fs, l) && !IndexKey(k) && !IndexKey(l) && c(k) == c(l) ==> k == l
  }

  function KeysOf(fs: seq<Field>): (r: seq<string>)
    ensures |r| == |fs| && forall i :: 0 <= i < |fs| ==> r[i] == fs[i].key
  {
    seq(|fs|, i requires 0 <= i < |fs| => fs[i].key)
  }

  lemma SameKey(fs: seq<Field>, f: Field, g: Field)
    requires KeysDiffer(fs) && f in fs && g in fs
    ensures f.key == g.key ==> f == g
  {
    var i :| 0 <= i < |fs| && fs[i] == f;
    var j :| 0 <= j < |fs| && fs[j] == g;
    assert i < j || j < i || i == j;
  }

  /** One key is printed before another: by the collation, and on a tie by the one way
      to list them. */
  ghost predicate Ahead(c: Collation, k: string, l: string) {
    || NameLess(c(k), c(l))
    || (c(k) == c(l) && IndexKey(k) && (IndexKey(l) ==> DigitsValue(k) < DigitsValue(l)))
  }

  ghost predicate KeysAhead(c: Collation, ks: seq<string>) {
    forall i, j :: 0 <= i < j < |ks| ==> Ahead(c, ks[i], ks[j])
  }

  lemma AheadOneWay(c: Collation, k: string, l: string)
    requires Ahead(c, k, l)
    ensures !Ahead(c, l, k)
  {
    hide DigitsValue;
    NameTrichotomy(c(k), c(l));
  }

  lemma KeysAheadFacts(c: Collation, ks: seq<string>)
    requires ks != [] && KeysAhead(c, ks)
    ensures KeysAhead(c, ks[..|ks| - 1])
    ensures forall k :: k in ks[..|ks| - 1] <==> k in ks && k != ks[|ks| - 1]
    ensures forall k :: k in ks && k != ks[|ks| - 1] ==> Ahead(c, k, ks[|ks| - 1])
  {
    hide Ahead;
    var last := ks[|ks| - 1];
    forall i | 0 <= i < |ks| - 1 ensures ks[i] != last {
      if ks[i] == last { AheadOneWay(c, ks[i], last); }
    }
  }

  lemma SomeMember<T>(s: seq<T>)
    ensures s != [] ==> exists x :: x in s
  {
    if s != [] { assert s[0] in s; }
  }

  /** Keys have one order. */
  lemma {:induction false} OneOrder(c: Collation, a: seq<string>, b: seq<string>)
    requires KeysAhead(c, a) && KeysAhead(c, b) && forall k :: k in a <==> k in b
    ensures a == b
  {
    if a == [] {
      SomeMember(b);
    } else {
      assert a[0] in b;
      KeysAheadFacts(c, a);
      KeysAheadFacts(c, b);
      SameEnd(c, a, b);
      hide KeysAhead, Ahead;
      var m, n := a[..|a| - 1], b[..|b| - 1];
      forall k ensures k in m <==> k in n { assert k in a <==> k in b; }
      OneOrder(c, m, n);
      assert a == a[..|a| - 1] + [a[|a| - 1]] && b == b[..|b| - 1] + [b[|b| - 1]];
    }
  }

  lemma SameEnd(c: Collation, a: seq<string>, b: seq<string>)
    requires a != [] && b != [] && KeysAhead(c, a) && KeysAhead(c, b) && forall k :: k in a <==> k in b
    ensures a[|a| - 1] == b[|b| - 1]
  {
    KeysAheadFacts(c, a);
    KeysAheadFacts(c, b);
    hide KeysAhead, Ahead;
    var x, y := a[|a| - 1], b[|b| - 1];
    assert x in b && y in a;
    if x != y {
      AheadOneWay(c, x, y);
      assert false;
    }
  }

  /** The kept fields are printed in that order. */
  lemma {:induction false} PrintedAhead(c: Collation, fs: seq<Field>)
    requires KeysDiffer(fs) && Listed(fs) && TielessKeys(c, fs)
    ensures KeysAhead(c, KeysOf(InOrder(c, fs)))
  {
    FieldsOrdered(c);
    SortSorts(FieldOrder(c), Kept(fs));
    InOrderDistinct(c, fs);
    var r := InOrder(c, fs);
    hide InOrder, KeysDiffer, Listed, TielessKeys, Ahead;
    forall i, j | 0 <= i < j < |r| ensures Ahead(c, r[i].key, r[j].key) {
      assert FieldOrder(c)(r[i], r[j]) && r[i] != r[j];
      PairAhead(c, fs, i, j);
    }
  }

  lemma {:induction false} PairAhead(c: Collation, fs: seq<Field>, i: nat, j: nat)
    requires KeysDiffer(fs) && Listed(fs) && TielessKeys(c, fs) && Distinct(InOrder(c, fs))
    requires i < j < |InOrder(c, fs)| && FieldOrder(c)(InOrder(c, fs)[i], InOrder(c, fs)[j])
    ensures Ahead(c, InOrder(c, fs)[i].key, InOrder(c, fs)[j].key)
  {
    var f, g := InOrder(c, fs)[i], InOrder(c, fs)[j];
    NameTrichotomy(c(f.key), c(g.key));
    if c(f.key) == c(g.key) {
      var p, q := ListedBefore(c, fs, i, j);
      assert KeepsKey(fs, f.key) && KeepsKey(fs, g.key);
      hide InOrder, DigitsValue;
      assert IndexKey(fs[q].key) ==> IndexKey(fs[p].key);
    }
  }

  /** Tied fields stand in the list as they are printed. */
  lemma {:induction false} ListedBefore(c: Collation, fs: seq<Field>, i: nat, j: nat) returns (p: nat, q: nat)
    requires Distinct(InOrder(c, fs))
    requires i < j < |InOrder(c, fs)| && c(InOrder(c, fs)[i].key) == c(InOrder(c, fs)[j].key)
    ensures p < q < |fs| && fs[p] == InOrder(c, fs)[i] && fs[q] == InOrder(c, fs)[j]
    ensures !fs[p].value.Undefined? && !fs[q].value.Undefined?
  {
    var r := InOrder(c, fs);
    hide InOrder;
    assert r[i] in fs && r[j] in fs && r[i] != r[j];
    p :| 0 <= p < |fs| && fs[p] == r[i];
    q :| 0 <= q < |fs| && fs[q] == r[j];
    if q < p {
      TiesStay(c, fs, q, p);
      OnlyBefore(r, i, j);
      assert false;
    }
  }

  lemma OnlyBefore<T>(r: seq<T>, i: nat, j: nat)
    requires Distinct(r) && i < j < |r|
    ensures !Before(r, r[j], r[i])
  {
  }

  lemma SameKeepsKey(fs: seq<Field>, gs: seq<Field>, k: string)
    requires KeysDiffer(fs) && KeysDiffer(gs) && FieldsMeaning(fs) == FieldsMeaning(gs)
    ensures KeepsKey(fs, k) <==> KeepsKey(gs, k)
  {
    FieldsMeaningIs(fs);
    FieldsMeaningIs(gs);
    hide KeepsKey, FieldsMeaning, KeysDiffer, HoldsField;
    assert k in FieldsMeaning(fs) <==> KeepsKey(fs, k);
  }

  /** Objects of one meaning print the same keys in the same places, unless keys tie. */
  lemma {:induction false} SameKeys(c: Collation, fs: seq<Field>, gs: seq<Field>)
    requires KeysDiffer(fs) && KeysDiffer(gs) && Listed(fs) && Listed(gs)
    requires FieldsMeaning(fs) == FieldsMeaning(gs) && TielessKeys(c, fs)
    ensures var xs, ys := InOrder(c, fs), InOrder(c, gs);
      |xs| == |ys| && forall i :: 0 <= i < |xs| ==> xs[i].key == ys[i].key
  {
    forall k ensures KeepsKey(fs, k) <==> KeepsKey(gs, k) { SameKeepsKey(fs, gs, k); }
    hide InOrder, FieldsMeaning, KeysDiffer, KeepsKey, Listed, KeysAhead;
    assert TielessKeys(c, gs);
    hide TielessKeys;
    PrintedAhead(c, fs);
    PrintedAhead(c, gs);
    var a, b := KeysOf(InOrder(c, fs)), KeysOf(InOrder(c, gs));
    forall k ensures k in a <==> k in b {
      KeyPrinted(c, fs, k);
      KeyPrinted(c, gs, k);
    }
    OneOrder(c, a, b);
    forall i | 0 <= i < |a| ensures InOrder(c, fs)[i].key == InOrder(c, gs)[i].key {
      assert a[i] == b[i];
    }
  }

  lemma KeyPrinted(c: Collation, fs: seq<Field>, k: string)
    ensures k in KeysOf(InOrder(c, fs)) <==> KeepsKey(fs, k)
  {
    var r := InOrder(c, fs);
    hide InOrder;
    if k in KeysOf(r) {
      var i :| 0 <= i < |r| && KeysOf(r)[i] == k;
      assert r[i] in fs;
    }
    if KeepsKey(fs, k) {
      var f :| f in fs && !f.value.Undefined? && f.key == k;
      assert f in r;
      var i :| 0 <= i < |r| && r[i] == f;
      assert KeysOf(r)[i] == k;
    }
  }

  lemma {:induction false} SameJoined(c: Collation, v: Json, xs: seq<Part>, w: Json, ys: seq<Part>)
    requires Within(xs, v) && Within(ys, w) && |xs| == |ys|
    requires forall i :: 0 <= i < |xs| ==> PartText(c, v, xs[i]) == PartText(c, w, ys[i])
    ensures Joined(c, v, xs) == Joined(c, w, ys)
    decreases |xs|
  {
    hide PartText;
    if |xs| > 1 {
      forall i | 0 <= i < |xs[1..]| ensures PartText(c, v, xs[1..][i]) == PartText(c, w, ys[1..][i]) {
        assert PartText(c, v, xs[i + 1]) == PartText(c, w, ys[i + 1]);
      }
      SameJoined(c, v, xs[1..], w, ys[1..]);
    }
  }

  /** Values of one meaning have one text unless keys tie: neither the order of keys
      nor an absent field shows. */
  lemma {:induction false} SameText(c: Collation, v: Json, w: Json)
    requires WellFormed(v) && WellFormed(w) && Meaning(v) == Meaning(w) && Tieless(c, v)
    ensures Canonical(c, v) == Canonical(c, w)
    decreases v
  {
    hide Quote, InOrder, Items, Names, Joined, FieldsMeaning, TielessKeys;
    match v
    case Arr(items) =>
      hide Canonical;
      var xs, ys := Items(items), Items(w.items);
      assert Meaning(v).items == Meaning(w).items;
      ArrayParts(v);
      ArrayParts(w);
      forall i | 0 <= i < |xs| ensures PartText(c, v, xs[i]) == PartText(c, w, ys[i]) {
        assert Meaning(v).items[i] == Meaning(w).items[i];
        SameText(c, items[i], w.items[i]);
      }
      SameArrayText(c, v, w);
    case Obj(fields) =>
      SameObjectText(c, v, w);
    case _ =>
  }

  lemma {:induction false} SameArrayText(c: Collation, v: Json, w: Json)
    requires v.Arr? && w.Arr? && Within(Items(v.items), v) && Within(Items(w.items), w) && |v.items| == |w.items|
    requires forall i :: 0 <= i < |v.items| ==> PartText(c, v, Items(v.items)[i]) == PartText(c, w, Items(w.items)[i])
    ensures Canonical(c, v) == Canonical(c, w)
  {
    SameJoined(c, v, Items(v.items), w, Items(w.items));
    hide Joined, PartText;
  }

  lemma TielessWithin(c: Collation, v: Json, i: nat)
    requires v.Obj? && Tieless(c, v) && i < |InOrder(c, v.fields)|
    ensures Tieless(c, InOrder(c, v.fields)[i].value)
  {
    hide InOrder, TielessKeys;
    var f := InOrder(c, v.fields)[i];
    assert f in v.fields;
    var k :| 0 <= k < |v.fields| && v.fields[k] == f;
  }

  lemma {:induction false} SameObjectText(c: Collation, v: Json, w: Json)
    requires v.Obj? && w.Obj? && WellFormed(v) && WellFormed(w) && Meaning(v) == Meaning(w) && Tieless(c, v)
    ensures Canonical(c, v) == Canonical(c, w)
    decreases v, 0
  {
    var fs, gs := InOrder(c, v.fields), InOrder(c, w.fields);
    var xs, ys := Names(fs), Names(gs);
    ObjectParts(c, v);
    ObjectParts(c, w);
    SameKeys(c, v.fields, w.fields);
    forall i | 0 <= i < |xs| ensures PartText(c, v, xs[i]) == PartText(c, w, ys[i]) {
      SameFieldMeaning(c, v.fields, w.fields, i);
      TielessWithin(c, v, i);
      SameText(c, fs[i].value, gs[i].value);
    }
    SameJoined(c, v, xs, w, ys);
  }

  lemma {:induction false} SameFieldMeaning(c: Collation, fs: seq<Field>, gs: seq<Field>, i: nat)
    requires KeysDiffer(fs) && KeysDiffer(gs) && FieldsMeaning(fs) == FieldsMeaning(gs)
    requires i < |InOrder(c, fs)| && i < |InOrder(c, gs)| && InOrder(c, fs)[i].key == InOrder(c, gs)[i].key
    ensures Meaning(InOrder(c, fs)[i].value) == Meaning(InOrder(c, gs)[i].value)
  {
    FieldsMeaningIs(fs);
    FieldsMeaningIs(gs);
    hide InOrder, FieldsMeaning, Meaning, KeysDiffer;
    assert InOrder(c, fs)[i] in fs && InOrder(c, gs)[i] in gs;
    assert HoldsField(FieldsMeaning(fs), InOrder(c, fs)[i]) && HoldsField(FieldsMeaning(gs), InOrder(c, gs)[i]);
  }

  /** Records of one text mean the same; without ties, exactly those do. */
  lemma {:induction false} CanonicalTellsMeaning(c: Collation, v: Json, w: Json)
    requires WellFormed(v) && WellFormed(w)
    ensures Canonical(c, v) == Canonical(c, w) ==> Meaning(v) == Meaning(w)
    ensures Tieless(c, v) ==> (Canonical(c, v) == Canonical(c, w) <==> Meaning(v) == Meaning(w))
  {
    hide Canonical, Meaning, WellFormed, Tieless;
    if Canonical(c, v) == Canonical(c, w) {
      assert Canonical(c, v) + "" == Canonical(c, w) + "";
      Readable(c, v, "", w, "");
    }
    if Meaning(v) == Meaning(w) && Tieless(c, v) { SameText(c, v, w); }
  }

  /** The separator of the hashed text never occurs in a canonical text. */
  lemma {:induction false} CanonicalHasNoSeparator(c: Collation, v: Json)
    requires WellFormed(v)
    ensures '\0' !in Canonical(c, v)
    decreases v, 1, 0
  {
    hide Joined, Items, Names, InOrder, EscapeAll;
    match v
    case Arr(items) =>
      ArrayParts(v);
      JoinedHasNoSeparator(c, v, Items(items), false);
    case Obj(fields) =>
      ObjectParts(c, v);
      JoinedHasNoSeparator(c, v, Names(InOrder(c, fields)), true);
    case _ =>
  }

  lemma {:induction false} JoinedHasNoSeparator(c: Collation, v: Json, parts: seq<Part>, named: bool)
    requires PartsOf(parts, v, named)
    ensures '\0' !in Joined(c, v, parts)
    decreases v, 0, |parts|
  {
    hide WellFormed, EscapeAll, Canonical;
    if parts != [] {
      CanonicalHasNoSeparator(c, parts[0].value);
      JoinedHasNoSeparator(c, v, parts[1..], named);
    }
  }

  // ------------------------------------------------------------- when order shows

  lemma DescribedOnce(a: map<string, Value>, b: map<string, Value>, fs: seq<Field>, gs: seq<Field>)
    requires Describes(a, fs) && Describes(b, gs) && forall f :: f in fs <==> f in gs
    ensures a == b
  {
    hide Meaning;
    forall k ensures KeepsKey(fs, k) <==> KeepsKey(gs, k) {}
    forall k | k in a ensures a[k] == b[k] {
      assert KeepsKey(fs, k);
      var f :| f in fs && !f.value.Undefined? && f.key == k;
      assert HoldsField(a, f) && HoldsField(b, f);
    }
  }

  /** Listing the fields in another order changes no meaning. */
  lemma {:induction false} ReorderedMeaning(fs: seq<Field>, gs: seq<Field>)
    requires KeysDiffer(fs) && KeysDiffer(gs) && forall f :: f in fs <==> f in gs
    ensures FieldsMeaning(fs) == FieldsMeaning(gs)
  {
    FieldsMeaningIs(fs);
    FieldsMeaningIs(gs);
    hide FieldsMeaning, Describes;
    DescribedOnce(FieldsMeaning(fs), FieldsMeaning(gs), fs, gs);
  }

  lemma {:induction false} ReplacedMeaning(fs: seq<Field>, gs: seq<Field>)
    requires |fs| == |gs| && forall i :: 0 <= i < |fs| ==>
      fs[i].key == gs[i].key && fs[i].value.Undefined? == gs[i].value.Undefined?
        && Meaning(fs[i].value) == Meaning(gs[i].value)
    ensures FieldsMeaning(fs) == FieldsMeaning(gs)
  {
    hide Meaning;
    if fs != [] { ReplacedMeaning(fs[..|fs| - 1], gs[..|gs| - 1]); }
  }

  lemma KeptLast(fs: seq<Field>)
    requires fs != []
    ensures var last := fs[|fs| - 1];
      Kept(fs) == Kept(fs[..|fs| - 1]) + if last.value.Undefined? then [] else [last]
  {
  }

  lemma {:induction false} KeptBefore(fs: seq<Field>, i: nat, j: nat)
    requires i < j < |fs| && !fs[i].value.Undefined? && !fs[j].value.Undefined?
    ensures Before(Kept(fs), fs[i], fs[j])
  {
    KeptLast(fs);
    hide Kept, Before;
    var m, last := fs[..|fs| - 1], fs[|fs| - 1];
    assert m[i] == fs[i];
    if j < |m| {
      assert m[j] == fs[j];
      KeptBefore(m, i, j);
      BeforeMore(Kept(m), fs[i], fs[j], if last.value.Undefined? then [] else [last]);
    } else {
      assert m[i] in m;
      BeforeEnd(Kept(m), fs[i], last);
    }
  }

  /** Tied fields are printed in the order they are listed. */
  lemma {:induction false} TiesStay(c: Collation, fs: seq<Field>, i: nat, j: nat)
    requires i < j < |fs| && !fs[i].value.Undefined? && !fs[j].value.Undefined? && c(fs[i].key) == c(fs[j].key)
    ensures Before(InOrder(c, fs), fs[i], fs[j])
  {
    KeptBefore(fs, i, j);
    NameTrichotomy(c(fs[i].key), c(fs[j].key));
    SortStable(FieldOrder(c), Kept(fs), fs[i], fs[j]);
  }

  lemma InOrderDistinct(c: Collation, fs: seq<Field>)
    requires KeysDiffer(fs)
    ensures Distinct(InOrder(c, fs))
  {
    KeptDistinct(fs);
    SortDistinct(FieldOrder(c), Kept(fs));
  }

  /** The same keys in the same places: a field keeps its place. */
  lemma PlaceKept(c: Collation, fs: seq<Field>, gs: seq<Field>, f: Field, p: nat, q: nat)
    requires KeysDiffer(gs) && SameParts(Names(InOrder(c, fs)), Names(InOrder(c, gs)))
    requires p < |InOrder(c, fs)| && q < |InOrder(c, gs)| && InOrder(c, fs)[p] == f == InOrder(c, gs)[q]
    ensures p == q
  {
    var xs, ys := InOrder(c, fs), InOrder(c, gs);
    InOrderDistinct(c, gs);
    hide InOrder, Meaning;
    assert SamePart(Names(xs)[p], Names(ys)[p]);
    assert ys[p] in gs && ys[q] in gs;
    SameKey(gs, ys[p], f);
    assert ys[p] == ys[q];
  }

  /** No two fields can have changed places. */
  lemma PlacesKept(c: Collation, fs: seq<Field>, gs: seq<Field>, f: Field, g: Field)
    requires KeysDiffer(gs) && Before(InOrder(c, fs), f, g) && Before(InOrder(c, gs), g, f)
    ensures !SameParts(Names(InOrder(c, fs)), Names(InOrder(c, gs)))
  {
    var xs, ys := InOrder(c, fs), InOrder(c, gs);
    var i, j :| 0 <= i < j < |xs| && xs[i] == f && xs[j] == g;
    var k, l :| 0 <= k < l < |ys| && ys[k] == g && ys[l] == f;
    hide *;
    if SameParts(Names(xs), Names(ys)) {
      PlaceKept(c, fs, gs, f, i, l);
      PlaceKept(c, fs, gs, g, j, k);
      assert false;
    }
  }

  /** The parts of two objects of one text. */
  lemma {:induction false} ObjectTexts(c: Collation, v: Json, w: Json)
    requires v.Obj? && w.Obj? && WellFormed(v) && WellFormed(w) && Canonical(c, v) == Canonical(c, w)
    ensures var xs, ys := Names(InOrder(c, v.fields)), Names(InOrder(c, w.fields));
      Within(xs, v) && Within(ys, w) && SameParts(xs, ys) && SameTexts(c, v, xs, w, ys)
  {
    var xs, ys := Names(InOrder(c, v.fields)), Names(InOrder(c, w.fields));
    ObjectParts(c, v);
    ObjectParts(c, w);
    Bracketed(c, v, xs, "{", "}", "");
    Bracketed(c, w, ys, "{", "}", "");
    hide Joined, PartsOf, InOrder, Names, SameTexts, SameParts;
    SameHead("{", Joined(c, v, xs) + ("}" + ""), "{", Joined(c, w, ys) + ("}" + ""));
    JoinedReadable(c, v, xs, "", w, ys, "", true, "}");
  }

  lemma {:induction false} ArrayTexts(c: Collation, v: Json, w: Json)
    requires v.Arr? && w.Arr? && WellFormed(v) && WellFormed(w) && Canonical(c, v) == Canonical(c, w)
    ensures var xs, ys := Items(v.items), Items(w.items);
      Within(xs, v) && Within(ys, w) && SameTexts(c, v, xs, w, ys)
  {
    var xs, ys := Items(v.items), Items(w.items);
    ArrayParts(v);
    ArrayParts(w);
    Bracketed(c, v, xs, "[", "]", "");
    Bracketed(c, w, ys, "[", "]", "");
    hide Joined, PartsOf, SameTexts;
    SameHead("[", Joined(c, v, xs) + ("]" + ""), "[", Joined(c, w, ys) + ("]" + ""));
    JoinedReadable(c, v, xs, "", w, ys, "", false, "]");
  }

  /** One meaning, another text. */
  ghost predicate Shows(c: Collation, v: Json, w: Json) {
    WellFormed(w) && Meaning(w) == Meaning(v) && Canonical(c, w) != Canonical(c, v)
  }

  lemma {:induction false} ItemTexts(c: Collation, items: seq<Json>, ktems: seq<Json>, i: nat)
    requires WellFormed(Arr(items)) && WellFormed(Arr(ktems)) && Canonical(c, Arr(items)) == Canonical(c, Arr(ktems))
    requires i < |items|
    ensures |items| == |ktems| && Canonical(c, items[i]) == Canonical(c, ktems[i])
  {
    var v, w := Arr(items), Arr(ktems);
    ArrayTexts(c, v, w);
    hide Canonical, WellFormed;
    assert PartText(c, v, Items(items)[i]) == PartText(c, w, Items(ktems)[i]);
  }

  lemma {:induction false} ItemShows(c: Collation, items: seq<Json>, i: nat, x: Json)
    requires WellFormed(Arr(items)) && i < |items| && Shows(c, items[i], x)
    ensures Shows(c, Arr(items), Arr(items[i := x]))
  {
    var v, w := Arr(items), Arr(items[i := x]);
    assert WellFormed(w) && Meaning(w).items == Meaning(v).items;
    hide Meaning, WellFormed, Canonical;
    if Canonical(c, v) == Canonical(c, w) {
      ItemTexts(c, items, items[i := x], i);
      assert false;
    }
  }

  lemma {:induction false} ReplacedFormed(fs: seq<Field>, i: nat, x: Json)
    requires WellFormed(Obj(fs)) && i < |fs| && WellFormed(x)
    ensures var gs := fs[i := Field(fs[i].key, x)];
      WellFormed(Obj(gs)) && KeysDiffer(fs) && KeysDiffer(gs)
  {
    hide IndexKey, DigitsValue;
    var gs := fs[i := Field(fs[i].key, x)];
    assert forall k :: 0 <= k < |fs| ==> gs[k].key == fs[k].key;
    assert Listed(gs) by { SameKeysListed(fs, gs); }
  }

  lemma SameKeysListed(fs: seq<Field>, gs: seq<Field>)
    requires Listed(fs) && |fs| == |gs| && forall k :: 0 <= k < |fs| ==> gs[k].key == fs[k].key
    ensures Listed(gs)
  {
    hide DigitsValue;
  }

  lemma {:induction false} FieldShows(c: Collation, fs: seq<Field>, i: nat, x: Json)
    requires WellFormed(Obj(fs)) && i < |fs| && !fs[i].value.Undefined? && !x.Undefined? && Shows(c, fs[i].value, x)
    ensures Shows(c, Obj(fs), Obj(fs[i := Field(fs[i].key, x)]))
  {
    var gs := fs[i := Field(fs[i].key, x)];
    var v, w := Obj(fs), Obj(gs);
    ReplacedFormed(fs, i, x);
    hide Canonical, InOrder;
    ReplacedMeaning(fs, gs);
    assert Meaning(w) == Meaning(v);
    hide Meaning, WellFormed, Listed, FieldsMeaning;
    if Canonical(c, v) == Canonical(c, w) {
      ObjectTexts(c, v, w);
      FieldTexts(c, fs, gs, i);
      assert false;
    }
  }

  lemma {:induction false} FieldTexts(c: Collation, fs: seq<Field>, gs: seq<Field>, i: nat)
    requires KeysDiffer(fs) && KeysDiffer(gs) && |gs| == |fs| && i < |fs| && gs[i].key == fs[i].key
    requires !fs[i].value.Undefined?
    requires var v, w, xs, ys := Obj(fs), Obj(gs), Names(InOrder(c, fs)), Names(InOrder(c, gs));
      Within(xs, v) && Within(ys, w) && SameParts(xs, ys) && SameTexts(c, v, xs, w, ys)
    ensures Canonical(c, fs[i].value) == Canonical(c, gs[i].value)
  {
    hide InOrder, Canonical, Quote, Meaning;
    var xs, ys := InOrder(c, fs), InOrder(c, gs);
    assert fs[i] in xs;
    var p :| 0 <= p < |xs| && xs[p] == fs[i];
    assert SamePart(Names(xs)[p], Names(ys)[p]);
    assert ys[p] in gs && gs[i] in gs;
    SameKey(gs, ys[p], gs[i]);
    assert PartText(c, Obj(fs), Names(xs)[p]) == PartText(c, Obj(gs), Names(ys)[p]);
    var q := Quote(fs[i].key) + ":";
    SameHead(q, Canonical(c, fs[i].value), q, Canonical(c, gs[i].value));
  }

  lemma {:induction false} SwapShows(c: Collation, fs: seq<Field>, i: nat, j: nat)
    requires WellFormed(Obj(fs)) && i < j < |fs| && c(fs[i].key) == c(fs[j].key)
    requires !IndexKey(fs[i].key) && !IndexKey(fs[j].key)
    requires !fs[i].value.Undefined? && !fs[j].value.Undefined?
    ensures Shows(c, Obj(fs), Obj(fs[i := fs[j]][j := fs[i]]))
  {
    var gs := fs[i := fs[j]][j := fs[i]];
    var v, w := Obj(fs), Obj(gs);
    forall f ensures f in fs <==> f in gs { SwapKeeps(fs, i, j, f); }
    assert KeysDiffer(fs) && KeysDiffer(gs);
    SwapListed(fs, i, j);
    assert WellFormed(w);
    ReorderedMeaning(fs, gs);
    assert Meaning(w) == Meaning(v);
    TiesStay(c, fs, i, j);
    TiesStay(c, gs, i, j);
    hide Meaning, WellFormed, InOrder, Before, Canonical;
    PlacesKept(c, fs, gs, fs[i], fs[j]);
    if Canonical(c, v) == Canonical(c, w) {
      ObjectTexts(c, v, w);
      assert false;
    }
  }

  lemma SwapListed(fs: seq<Field>, i: nat, j: nat)
    requires Listed(fs) && i < j < |fs| && !IndexKey(fs[i].key) && !IndexKey(fs[j].key)
    ensures Listed(fs[i := fs[j]][j := fs[i]])
  {
    hide DigitsValue;
  }

  lemma SwapKeeps(fs: seq<Field>, i: nat, j: nat, f: Field)
    requires i < j < |fs|
    ensures f in fs <==> f in fs[i := fs[j]][j := fs[i]]
  {
    var gs := fs[i := fs[j]][j := fs[i]];
    if f in fs {
      var k :| 0 <= k < |fs| && fs[k] == f;
      assert gs[if k == i then j else if k == j then i else k] == f;
    }
    if f in gs {
      var k :| 0 <= k < |gs| && gs[k] == f;
      assert fs[if k == i then j else if k == j then i else k] == f;
    }
  }

  lemma TiedPlaces(c: Collation, fs: seq<Field>) returns (i: nat, j: nat)
    requires !TielessKeys(c, fs)
    ensures i < j < |fs| && c(fs[i].key) == c(fs[j].key) && !fs[i].value.Undefined? && !fs[j].value.Undefined?
    ensures !IndexKey(fs[i].key) && !IndexKey(fs[j].key)
  {
    var k, l :| KeepsKey(fs, k) && KeepsKey(fs, l) && !IndexKey(k) && !IndexKey(l) && c(k) == c(l) && k != l;
    var f :| f in fs && !f.value.Undefined? && f.key == k;
    var g :| g in fs && !g.value.Undefined? && g.key == l;
    var p :| 0 <= p < |fs| && fs[p] == f;
    var q :| 0 <= q < |fs| && fs[q] == g;
    i, j := if p < q then p else q, if p < q then q else p;
  }

  /** Where two keys tie, the order in which they are listed shows in the text. */
  lemma {:induction false} Reordered(c: Collation, v: Json) returns (w: Json)
    requires WellFormed(v) && !Tieless(c, v)
    ensures Shows(c, v, w) && !w.Undefined?
    decreases v
  {
    match v
    case Arr(items) =>
      var i :| 0 <= i < |items| && !Tieless(c, items[i]);
      var x := Reordered(c, items[i]);
      hide Shows, WellFormed, Tieless;
      ItemShows(c, items, i, x);
      w := Arr(items[i := x]);
    case Obj(fields) =>
      if !TielessKeys(c, fields) {
        var i, j := TiedPlaces(c, fields);
        hide Shows, WellFormed, Tieless;
        SwapShows(c, fields, i, j);
        w := Obj(fields[i := fields[j]][j := fields[i]]);
      } else {
        var i :| 0 <= i < |fields| && !fields[i].value.Undefined? && !Tieless(c, fields[i].value);
        var x := Reordered(c, fields[i].value);
        hide Shows, WellFormed, Tieless;
        FieldShows(c, fields, i, x);
        w := Obj(fields[i := Field(fields[i].key, x)]);
      }
  }

  /** The order of keys never shows in a record's text exactly when no two of its
      kept keys, other than indices, tie in the host's collation. */
  lemma {:induction false} OrderNeverShows(c: Collation, v: Json)
    requires WellFormed(v)
    ensures Tieless(c, v) <==>
      forall w :: WellFormed(w) && Meaning(w) == Meaning(v) ==> Canonical(c, w) == Canonical(c, v)
  {
    hide WellFormed, Meaning, Canonical, Tieless;
    if Tieless(c, v) {
      forall w | WellFormed(w) && Meaning(w) == Meaning(v) ensures Canonical(c, w) == Canonical(c, v) {
        SameText(c, v, w);
      }
    } else {
      var w := Reordered(c, v);
      assert Shows(c, v, w);
      assert WellFormed(w) && Meaning(w) == Meaning(v) && Canonical(c, w) != Canonical(c, v);
    }
  }

  lemma {:induction false} TwoFields(c: Collation, a: string, b: string)
    requires a != b && c(a) == c(b) && !IndexKey(a) && !IndexKey(b)
    ensures Shows(c, Obj([Field(a, Null), Field(b, Null)]), Obj([Field(b, Null), Field(a, Null)]))
  {
    var fs := [Field(a, Null), Field(b, Null)];
    assert WellFormed(Obj(fs));
    hide Shows, WellFormed;
    SwapShows(c, fs, 0, 1);
    assert fs[0 := fs[1]][1 := fs[0]] == [fs[1], fs[0]];
  }

  /** Two spellings of one name: e with an acute accent as one character, and as an
      e with a combining accent. Hosts that take them for the same text keep them in
      the order they are listed. */
  lemma {:induction false} TwoSpellings(c: Collation)
    requires c("\U{E9}") == c("e\U{301}")
    ensures var a, b := Field("\U{E9}", Null), Field("e\U{301}", Null);
      Shows(c, Obj([a, b]), Obj([b, a]))
  {
    var a, b := "\U{E9}", "e\U{301}";
    assert |a| == 1 && |b| == 2 && !IsDigit(a[0]) && !IsDigit(b[0]);
    hide Shows;
    TwoFields(c, a, b);
  }
}
