/** What a JSON text stands for, read off the grammar of RFC 8259 and without regard to
    how the text was printed; and that every canonical text is one. */
module JsonText {
  import opened Options
  import opened Refs
  import opened Sorting
  import opened DecimalText
  import opened CanonicalJson

  // -------------------------------------------------------------- strings, section 7

  function HexDigit(c: char): Option<nat> {
    if '0' <= c <= '9' then Some((c - '0') as nat)
    else if 'a' <= c <= 'f' then Some((c - 'a') as nat + 10)
    else if 'A' <= c <= 'F' then Some((c - 'A') as nat + 10)
    else None
  }

  /** The character that a backslash and a letter stand for. */
  function ShortEscape(e: char): Option<char> {
    match e
    case '"' => Some('"')
    case '\\' => Some('\\')
    case '/' => Some('/')
    case 'b' => Some('\U{8}')
    case 'f' => Some('\U{C}')
    case 'n' => Some('\n')
    case 'r' => Some('\r')
    case 't' => Some('\t')
    case _ => None
  }

  function Before(c: char, rest: Option<string>): Option<string> {
    match rest
    case None => None
    case Some(s) => Some([c] + s)
  }

  /** The character of a four-digit escape; surrogates are no characters of their own. */
  function CodeUnit(a: char, b: char, c: char, d: char): Option<char> {
    match (HexDigit(a), HexDigit(b), HexDigit(c), HexDigit(d))
    case (Some(p), Some(q), Some(r), Some(s)) =>
      var n := ((p * 16 + q) * 16 + r) * 16 + s;
      if n < 0xD800 then Some(n as char) else None
    case _ => None
  }

  /** What stands between the quotes of a string, none when it may not stand there. */
  function Unquoted(s: string): Option<string> {
    if s == "" then Some("")
    else if s[0] == '\\' then
      if |s| >= 6 && s[1] == 'u' then
        match CodeUnit(s[2], s[3], s[4], s[5])
        case Some(c) => Before(c, Unquoted(s[6..]))
        case None => None
      else if |s| >= 2 then
        match ShortEscape(s[1])
        case Some(c) => Before(c, Unquoted(s[2..]))
        case None => None
      else None
    else if s[0] == '"' || s[0] < ' ' then None
    else Before(s[0], Unquoted(s[1..]))
  }

  lemma EscapeReads(c: char, x: string)
    ensures Unquoted(Escape(c) + x) == Before(c, Unquoted(x))
  {
    var s := Escape(c) + x;
    if c == '"' || c == '\\' || c as int == 8 || c as int == 9 || c as int == 10 || c as int == 12 || c as int == 13 {
      assert s[2..] == x;
    } else if c < ' ' {
      HexReads(c as int / 16);
      HexReads(c as int % 16);
      assert s[..6] == Escape(c) && s[6..] == x;
      assert CodeUnit(s[2], s[3], s[4], s[5]) == Some(c);
    } else {
      assert s[1..] == x;
    }
  }

  lemma HexReads(d: nat)
    requires d < 16
    ensures HexDigit(Hex(d)) == Some(d)
  {
  }

  /** Every string is what its escaped text reads as. */
  lemma {:induction false} EscapeAllReads(s: string)
    ensures Unquoted(EscapeAll(s)) == Some(s)
  {
    hide Escape, Unquoted;
    if s == "" {
      EmptyReads();
    } else {
      EscapeAllReads(s[1..]);
      EscapeReads(s[0], EscapeAll(s[1..]));
      assert s == [s[0]] + s[1..];
    }
  }

  lemma EmptyReads()
    ensures Unquoted("") == Some("")
  {
  }

  predicate PlainChar(c: char) {
    c >= ' ' && c != '"' && c != '\\'
  }

  /** Nothing is escaped that need not be. */
  lemma {:induction false} PlainStays(s: string)
    requires forall i :: 0 <= i < |s| ==> PlainChar(s[i])
    ensures EscapeAll(s) == s
  {
    if s != "" {
      PlainStays(s[1..]);
      assert s == [s[0]] + s[1..];
    }
  }

  /** Control characters have the short escapes, and lower-case digits where there is
      none. */
  lemma ControlEscapes()
    ensures Escape('\n') == "\\n" && Escape('\t') == "\\t" && Escape('\r') == "\\r"
    ensures Escape('\U{8}') == "\\b" && Escape('\U{C}') == "\\f" && Escape('\U{1F}') == "\\u001f"
  {
  }

  // ---------------------------------------------------------- values, sections 3 to 6

  function Commas(parts: seq<string>): string {
    if parts == [] then "" else if |parts| == 1 then parts[0] else parts[0] + "," + Commas(parts[1..])
  }

  datatype Member = Member(quoted: string, key: string, text: string)

  function MemberText(m: Member): string {
    "\"" + m.quoted + "\":" + m.text
  }

  function MemberTexts(ms: seq<Member>): (r: seq<string>)
    ensures |r| == |ms| && forall i :: 0 <= i < |r| ==> r[i] == MemberText(ms[i])
  {
    seq(|ms|, i requires 0 <= i < |ms| => MemberText(ms[i]))
  }

  /** A member for every name, each once, in any order. */
  ghost predicate NamedOnce(ms: seq<Member>, keys: set<string>) {
    && (forall i, j :: 0 <= i < j < |ms| ==> ms[i].key != ms[j].key)
    && (forall i :: 0 <= i < |ms| ==> ms[i].key in keys && Unquoted(ms[i].quoted) == Some(ms[i].key))
    && (forall k :: k in keys ==> exists i :: 0 <= i < |ms| && ms[i].key == k)
  }

  /** The text is a JSON text, without white space, of the value. */
  ghost predicate JsonOf(text: string, v: Value)
    decreases v, 1
  {
    match v
    case VNull => text == "null"
    case VBool(b) => text == if b then "true" else "false"
    case VNumber(number) => text == number
    case VStr(s) => exists q :: text == "\"" + q + "\"" && Unquoted(q) == Some(s)
    case VArr(_) => exists parts: seq<string> :: ElementsOf(text, parts, v)
    case VObj(_) => exists ms: seq<Member> :: MembersOf(text, ms, v)
  }

  ghost predicate ElementsOf(text: string, parts: seq<string>, v: Value)
    requires v.VArr?
    decreases v, 0
  {
    && |parts| == |v.items| && text == "[" + Commas(parts) + "]"
    && forall i :: 0 <= i < |v.items| ==> JsonOf(parts[i], v.items[i])
  }

  ghost predicate MembersOf(text: string, ms: seq<Member>, v: Value)
    requires v.VObj?
    decreases v, 0
  {
    && NamedOnce(ms, v.fields.Keys) && text == "{" + Commas(MemberTexts(ms)) + "}"
    && forall i :: 0 <= i < |ms| ==> ms[i].key in v.fields && JsonOf(ms[i].text, v.fields[ms[i].key])
  }

  // ------------------------------------------------------------------ canonical texts

  ghost function PartTexts(c: Collation, v: Json, parts: seq<Part>): (r: seq<string>)
    requires Within(parts, v)
    ensures |r| == |parts| && forall i :: 0 <= i < |r| ==> r[i] == PartText(c, v, parts[i])
  {
    seq(|parts|, i requires 0 <= i < |parts| => PartText(c, v, parts[i]))
  }

  lemma {:induction false} JoinedIsCommas(c: Collation, v: Json, parts: seq<Part>)
    requires Within(parts, v)
    ensures Joined(c, v, parts) == Commas(PartTexts(c, v, parts))
    decreases |parts|
  {
    hide PartText;
    if |parts| > 1 {
      JoinedIsCommas(c, v, parts[1..]);
      assert PartTexts(c, v, parts)[1..] == PartTexts(c, v, parts[1..]);
    }
  }

  ghost function MembersIn(c: Collation, fs: seq<Field>): (ms: seq<Member>)
    ensures |ms| == |fs|
    ensures forall i :: 0 <= i < |fs| ==> ms[i] == Member(EscapeAll(fs[i].key), fs[i].key, Canonical(c, fs[i].value))
  {
    seq(|fs|, i requires 0 <= i < |fs| => Member(EscapeAll(fs[i].key), fs[i].key, Canonical(c, fs[i].value)))
  }

  lemma NamedText(c: Collation, v: Json, f: Field)
    requires f.value < v
    ensures PartText(c, v, Named(f.key, f.value))
      == MemberText(Member(EscapeAll(f.key), f.key, Canonical(c, f.value)))
  {
    hide EscapeAll, Canonical;
    assert "\"" + EscapeAll(f.key) + "\":" + Canonical(c, f.value)
      == "\"" + EscapeAll(f.key) + "\"" + ":" + Canonical(c, f.value);
  }

  /** Every canonical text is a JSON text of what the record means. */
  lemma {:induction false} CanonicalIsJson(c: Collation, v: Json)
    requires WellFormed(v)
    ensures JsonOf(Canonical(c, v), Meaning(v))
    decreases v, 1
  {
    match v
    case Arr(items) => ArrayIsJson(c, v);
    case Obj(fields) => ObjectIsJson(c, v);
    case Str(text) =>
      EscapeAllReads(text);
      hide EscapeAll, Unquoted;
    case _ =>
  }

  lemma {:induction false} ArrayIsJson(c: Collation, v: Json)
    requires WellFormed(v) && v.Arr?
    ensures JsonOf(Canonical(c, v), Meaning(v))
    decreases v, 0
  {
    var parts := Items(v.items);
    ArrayParts(v);
    JoinedIsCommas(c, v, parts);
    var texts := PartTexts(c, v, parts);
    assert Canonical(c, v) == "[" + Commas(texts) + "]";
    forall i | 0 <= i < |v.items| ensures JsonOf(texts[i], Meaning(v).items[i]) {
      CanonicalIsJson(c, v.items[i]);
    }
    hide Canonical, Joined, PartText, JsonOf;
    assert ElementsOf(Canonical(c, v), texts, Meaning(v));
    JsonArray(Canonical(c, v), texts, Meaning(v));
  }

  lemma JsonArray(text: string, parts: seq<string>, v: Value)
    requires v.VArr? && ElementsOf(text, parts, v)
    ensures JsonOf(text, v)
  {
  }

  lemma JsonObject(text: string, ms: seq<Member>, v: Value)
    requires v.VObj? && NamedOnce(ms, v.fields.Keys) && text == "{" + Commas(MemberTexts(ms)) + "}"
    requires forall i :: 0 <= i < |ms| ==> ms[i].key in v.fields && JsonOf(ms[i].text, v.fields[ms[i].key])
    ensures JsonOf(text, v)
  {
    assert MembersOf(text, ms, v) by { hide JsonOf, NamedOnce, Commas, MemberTexts; }
    hide NamedOnce, Commas, MemberTexts, MembersOf;
  }

  lemma {:induction false} ObjectIsJson(c: Collation, v: Json)
    requires WellFormed(v) && v.Obj?
    ensures JsonOf(Canonical(c, v), Meaning(v))
    decreases v, 0
  {
    hide *;
    var fs, fields := InOrder(c, v.fields), FieldsMeaning(v.fields);
    var ms := MembersIn(c, fs);
    ObjectText(c, v);
    MembersNamed(c, v);
    forall i | 0 <= i < |ms| ensures ms[i].key in fields && JsonOf(ms[i].text, fields[ms[i].key]) {
      FieldMeans(c, v, i);
      CanonicalIsJson(c, fs[i].value);
    }
    ObjectMeans(v);
    JsonObject(Canonical(c, v), ms, Meaning(v));
  }

  lemma ObjectMeans(v: Json)
    requires v.Obj?
    ensures Meaning(v) == VObj(FieldsMeaning(v.fields))
  {
  }

  lemma {:induction false} ObjectText(c: Collation, v: Json)
    requires WellFormed(v) && v.Obj?
    ensures Canonical(c, v) == "{" + Commas(MemberTexts(MembersIn(c, InOrder(c, v.fields)))) + "}"
  {
    var fs := InOrder(c, v.fields);
    var parts := Names(fs);
    ObjectParts(c, v);
    JoinedIsCommas(c, v, parts);
    hide Joined, PartText, InOrder;
    forall i | 0 <= i < |fs| ensures PartTexts(c, v, parts)[i] == MemberTexts(MembersIn(c, fs))[i] {
      NamedText(c, v, fs[i]);
    }
    assert PartTexts(c, v, parts) == MemberTexts(MembersIn(c, fs));
  }

  ghost predicate Ascending(c: Collation, ms: seq<Member>) {
    forall i, j :: 0 <= i < j < |ms| ==> !NameLess(c(ms[j].key), c(ms[i].key))
  }

  /** An object is printed with its members in the order of the collation, each name
      in quotes and each value in its own canonical text. */
  lemma {:induction false} MembersAscend(c: Collation, v: Json)
    requires WellFormed(v) && v.Obj?
    ensures exists ms: seq<Member> ::
      && Canonical(c, v) == "{" + Commas(MemberTexts(ms)) + "}"
      && NamedOnce(ms, FieldsMeaning(v.fields).Keys)
      && Ascending(c, ms)
  {
    ObjectText(c, v);
    MembersNamed(c, v);
    InOrderAscends(c, v.fields);
    hide Canonical, InOrder, NamedOnce, MemberTexts, Commas, FieldsMeaning, WellFormed, NameLess;
    var ms := MembersIn(c, InOrder(c, v.fields));
    assert Ascending(c, ms);
  }

  lemma {:induction false} InOrderAscends(c: Collation, fs: seq<Field>)
    ensures forall i, j :: 0 <= i < j < |InOrder(c, fs)| ==>
      !NameLess(c(InOrder(c, fs)[j].key), c(InOrder(c, fs)[i].key))
  {
    FieldsOrdered(c);
    SortSorts(FieldOrder(c), Kept(fs));
    hide NameLess, Kept, Sort;
    var r := InOrder(c, fs);
    forall i, j | 0 <= i < j < |r| ensures !NameLess(c(r[j].key), c(r[i].key)) {
      assert FieldOrder(c)(r[i], r[j]);
    }
  }

  /** A printed field's value is what the object means by its key. */
  lemma {:induction false} FieldMeans(c: Collation, v: Json, i: nat)
    requires WellFormed(v) && v.Obj? && i < |InOrder(c, v.fields)|
    ensures var f := InOrder(c, v.fields)[i];
      && f.value < v && WellFormed(f.value)
      && f.key in FieldsMeaning(v.fields) && FieldsMeaning(v.fields)[f.key] == Meaning(f.value)
  {
    FieldsMeaningIs(v.fields);
    FieldsWithin(c, v);
    ObjectParts(c, v);
    hide InOrder, FieldsMeaning, Meaning, WellFormed;
    var f := InOrder(c, v.fields)[i];
    assert f in v.fields && HoldsField(FieldsMeaning(v.fields), f);
    assert Names(InOrder(c, v.fields))[i].value == f.value;
  }

  lemma {:induction false} MembersNamed(c: Collation, v: Json)
    requires WellFormed(v) && v.Obj?
    ensures NamedOnce(MembersIn(c, InOrder(c, v.fields)), FieldsMeaning(v.fields).Keys)
  {
    hide *;
    var fs, m := InOrder(c, v.fields), FieldsMeaning(v.fields);
    var ms := MembersIn(c, fs);
    KeysDistinct(c, v);
    forall i | 0 <= i < |ms| ensures ms[i].key in m && Unquoted(ms[i].quoted) == Some(ms[i].key) {
      FieldMeans(c, v, i);
      EscapeAllReads(fs[i].key);
    }
    forall k | k in m ensures exists i :: 0 <= i < |ms| && ms[i].key == k {
      var i := KeyPlace(c, v, k);
      assert ms[i].key == k;
    }
    AllNamedOnce(ms, m.Keys);
  }

  lemma AllNamedOnce(ms: seq<Member>, keys: set<string>)
    requires forall i, j :: 0 <= i < j < |ms| ==> ms[i].key != ms[j].key
    requires forall i :: 0 <= i < |ms| ==> ms[i].key in keys && Unquoted(ms[i].quoted) == Some(ms[i].key)
    requires forall k :: k in keys ==> exists i :: 0 <= i < |ms| && ms[i].key == k
    ensures NamedOnce(ms, keys)
  {
  }

  lemma {:induction false} KeysDistinct(c: Collation, v: Json)
    requires WellFormed(v) && v.Obj?
    ensures var fs := InOrder(c, v.fields); forall i, j :: 0 <= i < j < |fs| ==> fs[i].key != fs[j].key
  {
    var fs := InOrder(c, v.fields);
    assert KeysDiffer(v.fields);
    InOrderDistinct(c, v.fields);
    hide InOrder, WellFormed, KeysDiffer;
    forall i, j | 0 <= i < j < |fs| ensures fs[i].key != fs[j].key {
      assert fs[i] in v.fields && fs[j] in v.fields;
      SameKey(v.fields, fs[i], fs[j]);
    }
  }

  lemma {:induction false} KeyPlace(c: Collation, v: Json, k: string) returns (i: nat)
    requires WellFormed(v) && v.Obj? && k in FieldsMeaning(v.fields)
    ensures i < |InOrder(c, v.fields)| && InOrder(c, v.fields)[i].key == k
  {
    assert KeysDiffer(v.fields);
    FieldsMeaningIs(v.fields);
    hide InOrder, WellFormed, KeysDiffer, FieldsMeaning, KeepsKey, HoldsField;
    KeyPrinted(c, v.fields, k);
    i :| 0 <= i < |KeysOf(InOrder(c, v.fields))| && KeysOf(InOrder(c, v.fields))[i] == k;
  }
}
