/** Canonical JSON: values, the printer, and what parsing means (src/ir/json.h, src/ir/json.cpp).
    Each character of a string stands for one byte. */
module Json {
  import opened Ir

  /** An object is its entries in key order; an ordered map keeps them so. */
  datatype Value =
    | Null
    | Bool(flag: bool)
    | Int(number: I64)
    | Str(text: string)
    | Arr(items: seq<Value>)
    | Obj(entries: seq<Entry>)

  datatype Entry = Entry(key: string, value: Value)

  // ------------------------------------------------------------ characters

  predicate IsSpace(c: char) {
    c == ' ' || (9 <= c as int <= 13)
  }

  predicate IsDigit(c: char) {
    '0' <= c <= '9'
  }

  predicate IsControl(c: char) {
    c as int < 0x20
  }

  /** Written as an escape rather than as itself. */
  predicate HasEscape(c: char) {
    c == '"' || c == '\\' || c == '\n' || c == '\r' || c == '\t'
  }

  // ------------------------------------------------------------ ordered keys

  /** Lexicographic order of strings. */
  predicate KeyLess(a: string, b: string) {
    b != [] && (a == [] || a[0] < b[0] || (a[0] == b[0] && KeyLess(a[1..], b[1..])))
  }

  lemma {:induction false} KeyLessTrichotomy(a: string, b: string)
    ensures KeyLess(a, b) || KeyLess(b, a) || a == b
    ensures !(KeyLess(a, b) && KeyLess(b, a))
    ensures !KeyLess(a, a)
  {
    if a != [] && b != [] {
      KeyLessTrichotomy(a[1..], b[1..]);
      assert a == [a[0]] + a[1..] && b == [b[0]] + b[1..];
    }
    if a != [] {
      KeyLessTrichotomy(a[1..], a[1..]);
    }
  }

  lemma {:induction false} KeyLessTransitive(a: string, b: string, c: string)
    requires KeyLess(a, b) && KeyLess(b, c)
    ensures KeyLess(a, c)
  {
    if a != [] && a[0] == b[0] == c[0] {
      KeyLessTransitive(a[1..], b[1..], c[1..]);
    }
  }

  ghost predicate KeysAscend(entries: seq<Entry>) {
    forall i, j | 0 <= i < j < |entries| :: KeyLess(entries[i].key, entries[j].key)
  }

  /** Ordered-map insertion that keeps an entry already present. */
  function Emplace(entries: seq<Entry>, e: Entry): seq<Entry> {
    if entries == [] || KeyLess(e.key, entries[0].key) then [e] + entries
    else if entries[0].key == e.key then entries
    else [entries[0]] + Emplace(entries[1..], e)
  }

  lemma {:induction false} EmplaceMembers(entries: seq<Entry>, e: Entry)
    ensures forall x | x in Emplace(entries, e) :: x in entries || x == e
    ensures forall x | x in entries :: x in Emplace(entries, e)
    ensures exists x | x in Emplace(entries, e) :: x.key == e.key
  {
    if entries == [] || KeyLess(e.key, entries[0].key) {
      assert ([e] + entries)[0] == e;
    } else if entries[0].key != e.key {
      EmplaceMembers(entries[1..], e);
      assert entries == [entries[0]] + entries[1..];
      var x :| x in Emplace(entries[1..], e) && x.key == e.key;
      assert x in Emplace(entries, e);
    }
  }

  lemma {:induction false} EmplaceAscends(entries: seq<Entry>, e: Entry)
    requires KeysAscend(entries)
    ensures KeysAscend(Emplace(entries, e))
  {
    var r := Emplace(entries, e);
    if entries == [] {
    } else if KeyLess(e.key, entries[0].key) {
      forall j | 0 <= j < |entries| ensures KeyLess(e.key, entries[j].key) {
        if j > 0 {
          KeyLessTransitive(e.key, entries[0].key, entries[j].key);
        }
      }
    } else if entries[0].key != e.key {
      EmplaceAscends(entries[1..], e);
      EmplaceMembers(entries[1..], e);
      KeyLessTrichotomy(e.key, entries[0].key);
      var rest := Emplace(entries[1..], e);
      forall j | 0 <= j < |rest| ensures KeyLess(entries[0].key, rest[j].key) {
        assert rest[j] in rest;
        if rest[j] in entries[1..] {
          var k :| 0 <= k < |entries| - 1 && entries[1..][k] == rest[j];
          assert entries[k + 1] == rest[j];
        }
      }
    }
  }

  /** Inserting past the last key appends. */
  lemma {:induction false} EmplaceLast(entries: seq<Entry>, e: Entry)
    requires forall k | 0 <= k < |entries| :: KeyLess(entries[k].key, e.key)
    ensures Emplace(entries, e) == entries + [e]
  {
    if entries != [] {
      KeyLessTrichotomy(entries[0].key, e.key);
      EmplaceLast(entries[1..], e);
      assert entries == [entries[0]] + entries[1..];
    } else {
      assert [e] + entries == entries + [e];
    }
  }

  /** The ordered map with these entries; the first of several with one key wins. */
  function MapOf(list: seq<Entry>): seq<Entry> {
    if list == [] then [] else Emplace(MapOf(list[..|list| - 1]), list[|list| - 1])
  }

  function Find(entries: seq<Entry>, key: string): Lookup {
    if entries == [] then Absent
    else if entries[0].key == key then Present(entries[0].value)
    else Find(entries[1..], key)
  }

  datatype Lookup = Absent | Present(value: Value)

  lemma {:induction false} FindNone(entries: seq<Entry>, key: string)
    requires forall k | 0 <= k < |entries| :: entries[k].key != key
    ensures Find(entries, key) == Absent
  {
    if entries != [] {
      FindNone(entries[1..], key);
    }
  }

  lemma {:induction false} FindAt(entries: seq<Entry>, k: nat)
    requires k < |entries| && forall j | 0 <= j < k :: entries[j].key != entries[k].key
    ensures Find(entries, entries[k].key) == Present(entries[k].value)
  {
    if k > 0 {
      FindAt(entries[1..], k - 1);
    }
  }

  lemma {:induction false} FindAppend(a: seq<Entry>, b: seq<Entry>, key: string)
    ensures Find(a + b, key) == if Find(a, key).Present? then Find(a, key) else Find(b, key)
  {
    if a == [] {
      assert a + b == b;
    } else {
      assert (a + b)[1..] == a[1..] + b;
      FindAppend(a[1..], b, key);
    }
  }

  lemma {:induction false} FindEmplace(entries: seq<Entry>, e: Entry, key: string)
    requires KeysAscend(entries)
    ensures Find(Emplace(entries, e), key) ==
            if Find(entries, key).Present? then Find(entries, key) else if e.key == key then Present(e.value) else Absent
  {
    if entries == [] || KeyLess(e.key, entries[0].key) {
      assert ([e] + entries)[1..] == entries;
      if e.key == key {
        forall k | 0 <= k < |entries| ensures entries[k].key != key {
          KeyLessTrichotomy(key, entries[k].key);
          if k > 0 {
            KeyLessTransitive(key, entries[0].key, entries[k].key);
          }
        }
        FindNone(entries, key);
      }
    } else if entries[0].key != e.key {
      FindEmplace(entries[1..], e, key);
    }
  }

  lemma {:induction false} MapOfAscends(list: seq<Entry>)
    ensures KeysAscend(MapOf(list))
  {
    if list != [] {
      MapOfAscends(list[..|list| - 1]);
      EmplaceAscends(MapOf(list[..|list| - 1]), list[|list| - 1]);
    }
  }

  lemma {:induction false} MapOfMembers(list: seq<Entry>)
    ensures forall x | x in MapOf(list) :: x in list
  {
    if list != [] {
      MapOfMembers(list[..|list| - 1]);
      EmplaceMembers(MapOf(list[..|list| - 1]), list[|list| - 1]);
    }
  }

  /** Looking a key up in the map is looking it up in the list it was made from. */
  lemma {:induction false} FindMapOf(list: seq<Entry>, key: string)
    ensures Find(MapOf(list), key) == Find(list, key)
  {
    if list != [] {
      var front, last := list[..|list| - 1], list[|list| - 1];
      FindMapOf(front, key);
      MapOfAscends(front);
      FindEmplace(MapOf(front), last, key);
      assert list == front + [last];
      FindAppend(front, [last], key);
      assert [last][1..] == [];
    }
  }

  // ------------------------------------------------------------ numbers

  function DigitChar(d: nat): char
    requires d < 10
  {
    '0' + d as char
  }

  function DigitValue(c: char): nat
    requires IsDigit(c)
  {
    (c - '0') as nat
  }

  function Digits(n: nat): (r: string)
    ensures r != [] && forall k | 0 <= k < |r| :: IsDigit(r[k])
  {
    if n < 10 then [DigitChar(n)] else Digits(n / 10) + [DigitChar(n % 10)]
  }

  predicate AllDigits(s: string) {
    forall k | 0 <= k < |s| :: IsDigit(s[k])
  }

  function DecimalValue(s: string): nat
    requires AllDigits(s)
  {
    if s == [] then 0 else 10 * DecimalValue(s[..|s| - 1]) + DigitValue(s[|s| - 1])
  }

  lemma {:induction false} DecimalOfDigits(n: nat)
    ensures DecimalValue(Digits(n)) == n
  {
    if n >= 10 {
      DecimalOfDigits(n / 10);
      assert Digits(n)[..|Digits(n)| - 1] == Digits(n / 10);
    } else {
      assert Digits(n)[..0] == [];
    }
  }

  function PrintInt(i: int): string {
    if i < 0 then "-" + Digits(-i) else Digits(i)
  }

  // ------------------------------------------------------------ the printer

  /** Strings the printer can write: no control character but newline, carriage return and tab. */
  predicate Printable(s: string) {
    forall k | 0 <= k < |s| :: IsControl(s[k]) ==> HasEscape(s[k])
  }

  predicate Writable(v: Value) {
    match v
    case Str(text) => Printable(text)
    case Arr(items) => forall k | 0 <= k < |items| :: Writable(items[k])
    case Obj(entries) => forall k | 0 <= k < |entries| :: Printable(entries[k].key) && Writable(entries[k].value)
    case _ => true
  }

  lemma {:induction false} WritableField(o: seq<Entry>, key: string)
    requires Writable(Obj(o)) && Find(o, key).Present?
    ensures Writable(Find(o, key).value)
  {
    if o[0].key != key {
      assert forall k | 0 <= k < |o| - 1 :: o[1..][k] == o[k + 1];
      WritableField(o[1..], key);
    }
  }

  /** Objects list their keys in order, as an ordered map does. */
  ghost predicate WellFormed(v: Value) {
    match v
    case Arr(items) => forall k | 0 <= k < |items| :: WellFormed(items[k])
    case Obj(entries) => KeysAscend(entries) && forall k | 0 <= k < |entries| :: WellFormed(entries[k].value)
    case _ => true
  }

  function Escaped(c: char): string {
    match c
    case '"' => "\\\""
    case '\\' => "\\\\"
    case '\n' => "\\n"
    case '\r' => "\\r"
    case '\t' => "\\t"
    case _ => [c]
  }

  function PrintBody(s: string): string {
    if s == [] then "\"" else Escaped(s[0]) + PrintBody(s[1..])
  }

  function PrintString(s: string): string {
    "\"" + PrintBody(s)
  }

  function Print(v: Value): string {
    match v
    case Null => "null"
    case Bool(flag) => if flag then "true" else "false"
    case Int(number) => PrintInt(number)
    case Str(text) => PrintString(text)
    case Arr(items) => if items == [] then "[]" else "[" + PrintItems(items)
    case Obj(entries) => if entries == [] then "{}" else "{" + PrintEntries(entries)
  }

  /** The items, separated, and the closing bracket. */
  function PrintItems(items: seq<Value>): string
    requires items != []
  {
    Print(items[0]) + if |items| == 1 then "]" else "," + PrintItems(items[1..])
  }

  function PrintEntries(entries: seq<Entry>): string
    requires entries != []
    decreases entries, 1
  {
    PrintString(entries[0].key) + (":" + (Print(entries[0].value) + CloseEntry(entries)))
  }

  /** What follows an entry's value. */
  function CloseEntry(entries: seq<Entry>): string
    requires entries != []
    decreases entries, 0
  {
    if |entries| == 1 then "}" else "," + PrintEntries(entries[1..])
  }

  // ------------------------------------------------------------ what parsing means

  /** What was read and what remains, or failure. */
  datatype Parsed<T> = Good(value: T, rest: string) | Bad

  function SkipSpace(s: string): (r: string)
    ensures |r| <= |s|
  {
    if s != [] && IsSpace(s[0]) then SkipSpace(s[1..]) else s
  }

  function Unescape(c: char): Parsed<char> {
    match c
    case '"' | '\\' | '/' => Good(c, [])
    case 'b' => Good(8 as char, [])
    case 'f' => Good(12 as char, [])
    case 'n' => Good('\n', [])
    case 'r' => Good('\r', [])
    case 't' => Good('\t', [])
    case _ => Bad
  }

  /** The rest of a string after its opening quote. */
  function ParseBody(s: string, done: string): (r: Parsed<string>)
    ensures r.Good? ==> |r.rest| < |s|
    decreases |s|
  {
    if s == [] then Bad
    else if s[0] == '"' then Good(done, s[1..])
    else if s[0] == '\\' then
      if |s| == 1 || Unescape(s[1]).Bad? then Bad else ParseBody(s[2..], done + [Unescape(s[1]).value])
    else if IsControl(s[0]) then Bad
    else ParseBody(s[1..], done + [s[0]])
  }

  function LeadingDigits(s: string): (n: nat)
    ensures n <= |s| && AllDigits(s[..n])
    ensures n < |s| ==> !IsDigit(s[n])
  {
    if s != [] && IsDigit(s[0]) then
      var n := 1 + LeadingDigits(s[1..]);
      assert s[..n] == [s[0]] + s[1..][..n - 1];
      n
    else 0
  }

  predicate IsFraction(c: char) {
    c == '.' || c == 'e' || c == 'E'
  }

  function ParseNumber(s: string): (r: Parsed<Value>)
    requires s != []
    ensures r.Good? ==> |r.rest| < |s|
  {
    if s[0] == '-' then ParseMagnitude(true, s[1..]) else ParseMagnitude(false, s)
  }

  function ParseMagnitude(negative: bool, digits: string): (r: Parsed<Value>)
    ensures r.Good? ==> |r.rest| < |digits|
  {
    var n := LeadingDigits(digits);
    if n == 0 || (n < |digits| && IsFraction(digits[n])) then Bad
    else
      var magnitude := DecimalValue(digits[..n]);
      var number: int := if negative then 0 - magnitude else magnitude;
      if I64_MIN <= number <= I64_MAX then Good(Int(number), digits[n..]) else Bad
  }

  function ParseValue(text: string): (r: Parsed<Value>)
    ensures r.Good? ==> |r.rest| < |text|
    decreases |text|, 0
  {
    var s := SkipSpace(text);
    if s == [] then Bad
    else if s[0] == '{' then ParseObject(s[1..])
    else if s[0] == '[' then ParseArray(s[1..])
    else if s[0] == '"' then
      (match ParseBody(s[1..], [])
       case Good(body, rest) => Good(Str(body), rest)
       case Bad => Bad)
    else if s[0] == '-' || IsDigit(s[0]) then ParseNumber(s)
    else if "null" <= s then Good(Null, s[4..])
    else if "true" <= s then Good(Bool(true), s[4..])
    else if "false" <= s then Good(Bool(false), s[5..])
    else Bad
  }

  function ParseArray(text: string): (r: Parsed<Value>)
    ensures r.Good? ==> |r.rest| < |text|
    decreases |text|, 2
  {
    var s := SkipSpace(text);
    if s != [] && s[0] == ']' then Good(Arr([]), s[1..]) else ParseItems(s, [])
  }

  function ParseItems(text: string, done: seq<Value>): (r: Parsed<Value>)
    ensures r.Good? ==> |r.rest| < |text|
    decreases |text|, 1
  {
    match ParseValue(text)
    case Bad => Bad
    case Good(v, rest) => AfterItem(rest, done + [v])
  }

  function AfterItem(text: string, done: seq<Value>): (r: Parsed<Value>)
    ensures r.Good? ==> |r.rest| < |text|
    decreases |text|, 0
  {
    var s := SkipSpace(text);
    if s == [] then Bad
    else if s[0] == ']' then Good(Arr(done), s[1..])
    else if s[0] == ',' then ParseItems(s[1..], done)
    else Bad
  }

  function ParseObject(text: string): (r: Parsed<Value>)
    ensures r.Good? ==> |r.rest| < |text|
    decreases |text|, 2
  {
    var s := SkipSpace(text);
    if s != [] && s[0] == '}' then Good(Obj([]), s[1..]) else ParseEntries(s, [])
  }

  function ParseKey(text: string): (r: Parsed<string>)
    ensures r.Good? ==> |r.rest| < |text|
  {
    var s := SkipSpace(text);
    if s == [] || s[0] != '"' then Bad
    else match ParseBody(s[1..], [])
      case Bad => Bad
      case Good(key, rest) =>
        var t := SkipSpace(rest);
        if t == [] || t[0] != ':' then Bad else Good(key, t[1..])
  }

  function ParseEntries(text: string, done: seq<Entry>): (r: Parsed<Value>)
    ensures r.Good? ==> |r.rest| < |text|
    decreases |text|, 1
  {
    match ParseKey(text)
    case Bad => Bad
    case Good(key, afterKey) =>
      match ParseValue(afterKey)
      case Bad => Bad
      case Good(v, rest) => AfterEntry(rest, Emplace(done, Entry(key, v)))
  }

  function AfterEntry(text: string, done: seq<Entry>): (r: Parsed<Value>)
    ensures r.Good? ==> |r.rest| < |text|
    decreases |text|, 0
  {
    var s := SkipSpace(text);
    if s == [] then Bad
    else if s[0] == '}' then Good(Obj(done), s[1..])
    else if s[0] == ',' then ParseEntries(s[1..], done)
    else Bad
  }

  /** A whole document: one value and nothing after it but space. */
  function Parse(text: string): Parsed<Value> {
    match ParseValue(text)
    case Bad => Bad
    case Good(v, rest) => if SkipSpace(rest) == [] then Good(v, []) else Bad
  }

  // ------------------------------------------------------------ the parser reads back what the printer wrote

  /** What may follow a value: nothing that would continue a number. */
  predicate Delimited(t: string) {
    t == [] || (!IsDigit(t[0]) && !IsFraction(t[0]))
  }

  /** One printed character is read back and taken off. */
  lemma CharReadsBack(c: char, body: string, done: string)
    requires IsControl(c) ==> HasEscape(c)
    ensures ParseBody(Escaped(c) + body, done) == ParseBody(body, done + [c])
  {
    var whole := Escaped(c) + body;
    if HasEscape(c) {
      assert |Escaped(c)| == 2 && whole[0] == '\\' && whole[2..] == body;
      assert whole[1] == Escaped(c)[1] && Unescape(whole[1]) == Good(c, []);
    } else {
      assert whole[0] == c && whole[1..] == body;
    }
  }

  lemma {:induction false} BodyReadsBack(s: string, done: string, t: string)
    requires Printable(s)
    ensures ParseBody(PrintBody(s) + t, done) == Good(done + s, t)
  {
    if s == [] {
      assert done + s == done;
      assert (PrintBody(s) + t)[1..] == t;
    } else {
      var c, rest := s[0], s[1..];
      assert PrintBody(s) + t == Escaped(c) + (PrintBody(rest) + t);
      CharReadsBack(c, PrintBody(rest) + t, done);
      assert done + s == (done + [c]) + rest;
      BodyReadsBack(rest, done + [c], t);
    }
  }

  lemma {:induction false} LeadingDigitsExact(d: string, t: string)
    requires AllDigits(d) && (t == [] || !IsDigit(t[0]))
    ensures LeadingDigits(d + t) == |d|
  {
    if d == [] {
      assert d + t == t;
    } else {
      assert (d + t)[1..] == d[1..] + t;
      LeadingDigitsExact(d[1..], t);
    }
  }

  lemma MagnitudeReadsBack(negative: bool, magnitude: nat, t: string)
    requires Delimited(t) && I64_MIN <= (if negative then 0 - magnitude else magnitude) <= I64_MAX
    ensures ParseMagnitude(negative, Digits(magnitude) + t) == Good(Int(if negative then 0 - magnitude else magnitude), t)
  {
    var d := Digits(magnitude);
    DecimalOfDigits(magnitude);
    LeadingDigitsExact(d, t);
    assert (d + t)[..|d|] == d && (d + t)[|d|..] == t;
    assert t != [] ==> (d + t)[|d|] == t[0];
  }

  lemma NumberReadsBack(i: I64, t: string)
    requires Delimited(t)
    ensures ParseNumber(PrintInt(i) + t) == Good(Int(i), t)
  {
    var magnitude: nat := if i < 0 then 0 - i else i;
    var d := Digits(magnitude);
    MagnitudeReadsBack(i < 0, magnitude, t);
    if i < 0 {
      assert ("-" + d) + t == "-" + (d + t);
      assert ("-" + (d + t))[1..] == d + t;
    } else {
      assert IsDigit(d[0]) && (d + t)[0] == d[0];
    }
  }

  lemma NumbersAreDispatched(s: string)
    requires s != [] && (s[0] == '-' || IsDigit(s[0]))
    ensures ParseValue(s) == ParseNumber(s)
  {}

  lemma NoSpace(s: string)
    requires s != [] && !IsSpace(s[0])
    ensures SkipSpace(s) == s
  {}

  /** The first character of a written value. */
  lemma PrintStarts(v: Value)
    ensures Print(v) != [] && !IsSpace(Print(v)[0]) && Print(v)[0] != ']' && Print(v)[0] != '}'
    ensures v.Int? ==> Print(v)[0] == '-' || IsDigit(Print(v)[0])
  {
    match v
    case Int(i) => assert PrintInt(i)[0] == '-' || IsDigit(PrintInt(i)[0]);
    case _ =>
  }

  lemma ConstantReadsBack(v: Value, t: string)
    requires v.Null? || v.Bool?
    ensures ParseValue(Print(v) + t) == Good(v, t)
  {
    var s := Print(v) + t;
    NoSpace(s);
    match v
    case Null => assert "null" <= s && s[4..] == t;
    case Bool(true) => assert "true" <= s && s[4..] == t;
    case Bool(false) => assert "false" <= s && s[5..] == t;
  }

  lemma StringReadsBack(text: string, t: string)
    requires Printable(text)
    ensures ParseValue(PrintString(text) + t) == Good(Str(text), t)
  {
    var s := PrintString(text) + t;
    NoSpace(s);
    assert s[1..] == PrintBody(text) + t;
    BodyReadsBack(text, [], t);
    assert [] + text == text;
  }

  lemma {:induction false} ReadsBack(v: Value, t: string)
    requires Writable(v) && WellFormed(v) && Delimited(t)
    ensures ParseValue(Print(v) + t) == Good(v, t)
    decreases v, 1
  {
    match v
    case Null => ConstantReadsBack(v, t);
    case Bool(flag) => ConstantReadsBack(v, t);
    case Int(i) =>
      PrintStarts(v);
      NumberReadsBack(i, t);
      NumbersAreDispatched(PrintInt(i) + t);
    case Str(text) => StringReadsBack(text, t);
    case Arr(items) => ArrayReadsBack(items, v, t);
    case Obj(entries) => ObjectReadsBack(entries, v, t);
  }

  lemma {:induction false} ArrayReadsBack(items: seq<Value>, v: Value, t: string)
    requires v == Arr(items) && Writable(v) && WellFormed(v)
    ensures ParseValue(Print(v) + t) == Good(v, t)
    decreases v, 0
  {
    var whole := Print(v) + t;
    var s := whole[1..];
    assert whole[0] == '[';
    NoSpace(whole);
    if items == [] {
      assert s == "]" + t;
      assert s[1..] == t;
    } else {
      assert s == PrintItems(items) + t;
      PrintStarts(items[0]);
      NoSpace(s);
      ItemsReadBack(items, [], t);
      assert [] + items == items;
    }
  }

  /** What follows an item. */
  function CloseItem(items: seq<Value>): string
    requires items != []
  {
    if |items| == 1 then "]" else "," + PrintItems(items[1..])
  }

  lemma AfterItemStep(items: seq<Value>, done: seq<Value>, t: string)
    requires items != []
    ensures AfterItem(CloseItem(items) + t, done) ==
            if |items| == 1 then Good(Arr(done), t) else ParseItems(PrintItems(items[1..]) + t, done)
    ensures Delimited(CloseItem(items) + t)
  {
    var after := CloseItem(items) + t;
    NoSpace(after);
    if |items| == 1 {
      assert after[1..] == t;
    } else {
      assert after[1..] == PrintItems(items[1..]) + t;
    }
  }

  lemma ItemsSplit(items: seq<Value>, t: string)
    requires items != []
    ensures PrintItems(items) + t == Print(items[0]) + (CloseItem(items) + t)
  {
    StringAssociates(Print(items[0]), CloseItem(items), t);
  }

  lemma StringAssociates(a: string, b: string, c: string)
    ensures (a + b) + c == a + (b + c)
  {}

  lemma ItemReadsBack(v: Value, done: seq<Value>, close: string)
    requires ParseValue(Print(v) + close) == Good(v, close)
    ensures ParseItems(Print(v) + close, done) == AfterItem(close, done + [v])
  {}

  lemma AppendFirst<T>(done: seq<T>, items: seq<T>)
    requires items != []
    ensures (done + [items[0]]) + items[1..] == done + items
    ensures |items| == 1 ==> done + [items[0]] == done + items
  {}

  ghost predicate AllReadable(items: seq<Value>) {
    forall k | 0 <= k < |items| :: Writable(items[k]) && WellFormed(items[k])
  }

  lemma {:induction false} ItemsReadBack(items: seq<Value>, done: seq<Value>, t: string)
    requires items != [] && AllReadable(items)
    ensures ParseItems(PrintItems(items) + t, done) == Good(Arr(done + items), t)
    decreases items
  {
    var v, close := items[0], CloseItem(items) + t;
    AfterItemStep(items, done + [v], t);
    ItemsSplit(items, t);
    ReadsBack(v, close);
    ItemReadsBack(v, done, close);
    AppendFirst(done, items);
    if |items| > 1 {
      ItemsReadBack(items[1..], done + [v], t);
    }
  }

  lemma {:induction false} ObjectReadsBack(entries: seq<Entry>, v: Value, t: string)
    requires v == Obj(entries) && Writable(v) && WellFormed(v)
    ensures ParseValue(Print(v) + t) == Good(v, t)
    decreases v, 0
  {
    var whole := Print(v) + t;
    var s := whole[1..];
    assert whole[0] == '{';
    NoSpace(whole);
    if entries == [] {
      assert s == "}" + t;
      assert s[1..] == t;
    } else {
      assert s == PrintEntries(entries) + t;
      assert s[0] == '"';
      NoSpace(s);
      assert [] + entries == entries;
      EntriesReadBack(entries, [], t);
    }
  }

  lemma KeyReadsBack(key: string, t: string)
    requires Printable(key)
    ensures ParseKey(PrintString(key) + (":" + t)) == Good(key, t)
  {
    var s := PrintString(key) + (":" + t);
    assert s[0] == '"' && s[1..] == PrintBody(key) + (":" + t);
    BodyReadsBack(key, [], ":" + t);
    assert [] + key == key;
    assert (":" + t)[1..] == t;
  }

  lemma AfterEntryStep(entries: seq<Entry>, done: seq<Entry>, t: string)
    requires entries != []
    ensures AfterEntry(CloseEntry(entries) + t, done) ==
            if |entries| == 1 then Good(Obj(done), t) else ParseEntries(PrintEntries(entries[1..]) + t, done)
    ensures Delimited(CloseEntry(entries) + t)
  {
    var after := CloseEntry(entries) + t;
    NoSpace(after);
    if |entries| == 1 {
      assert after[1..] == t;
    } else {
      assert after[1..] == PrintEntries(entries[1..]) + t;
    }
  }

  lemma Reassociate(key: string, value: string, close: string, t: string)
    ensures (key + (":" + (value + close))) + t == key + (":" + (value + (close + t)))
  {}

  /** One entry reads back and leaves what follows its value. */
  lemma EntryReadsBack(e: Entry, done: seq<Entry>, close: string)
    requires Printable(e.key) && ParseValue(Print(e.value) + close) == Good(e.value, close)
    requires forall k | 0 <= k < |done| :: KeyLess(done[k].key, e.key)
    ensures ParseEntries(PrintString(e.key) + (":" + (Print(e.value) + close)), done) == AfterEntry(close, done + [e])
  {
    KeyReadsBack(e.key, Print(e.value) + close);
    EmplaceLast(done, e);
    EntryParts(e);
  }

  ghost predicate AllEntriesReadable(entries: seq<Entry>) {
    forall k | 0 <= k < |entries| ::
      Printable(entries[k].key) && Writable(entries[k].value) && WellFormed(entries[k].value)
  }

  lemma {:induction false} EntriesReadBack(entries: seq<Entry>, done: seq<Entry>, t: string)
    requires entries != [] && KeysAscend(done + entries)
    requires AllEntriesReadable(entries)
    ensures ParseEntries(PrintEntries(entries) + t, done) == Good(Obj(done + entries), t)
    decreases entries
  {
    var e, close := entries[0], CloseEntry(entries);
    var longer := done + [e];
    AfterEntryStep(entries, longer, t);
    ReadsBack(e.value, close + t);
    LastKey(done, entries);
    EntryReadsBack(e, done, close + t);
    AppendFirst(done, entries);
    Reassociate(PrintString(e.key), Print(e.value), CloseEntry(entries), t);
    if |entries| > 1 {
      EntriesReadBack(entries[1..], longer, t);
    }
  }

  lemma EntryParts(e: Entry)
    ensures Entry(e.key, e.value) == e
  {}

  lemma LastKey(done: seq<Entry>, entries: seq<Entry>)
    requires entries != [] && KeysAscend(done + entries)
    ensures forall k | 0 <= k < |done| :: KeyLess(done[k].key, entries[0].key)
  {
    var all := done + entries;
    forall k | 0 <= k < |done| ensures KeyLess(done[k].key, entries[0].key) {
      assert all[k] == done[k] && all[|done|] == entries[0];
    }
  }

  /** Parsing undoes printing, for every value the printer accepts. */
  lemma ParseCanonical(v: Value)
    requires Writable(v) && WellFormed(v)
    ensures Parse(Print(v)) == Good(v, [])
  {
    ReadsBack(v, []);
    assert Print(v) + [] == Print(v);
  }

  /** Hence different values are printed differently. */
  lemma PrintInjective(v: Value, w: Value)
    requires Writable(v) && WellFormed(v) && Writable(w) && WellFormed(w) && Print(v) == Print(w)
    ensures v == w
  {
    ParseCanonical(v);
    ParseCanonical(w);
  }

  // ------------------------------------------------------------ what the parser returns

  /** Every parsed value keeps its keys in order. */
  lemma {:induction false} ParsedIsWellFormed(text: string)
    ensures ParseValue(text).Good? ==> WellFormed(ParseValue(text).value)
    decreases |text|, 0
  {
    var s := SkipSpace(text);
    if s != [] && s[0] == '{' {
      ParsedObjectIsWellFormed(s[1..]);
    } else if s != [] && s[0] == '[' {
      ParsedArrayIsWellFormed(s[1..]);
    }
  }

  lemma {:induction false} ParsedArrayIsWellFormed(text: string)
    ensures ParseArray(text).Good? ==> WellFormed(ParseArray(text).value)
    decreases |text|, 2
  {
    ParsedItemsAreWellFormed(SkipSpace(text), []);
  }

  lemma {:induction false} ParsedItemsAreWellFormed(text: string, done: seq<Value>)
    requires forall k | 0 <= k < |done| :: WellFormed(done[k])
    ensures ParseItems(text, done).Good? ==> WellFormed(ParseItems(text, done).value)
    decreases |text|, 1
  {
    ParsedIsWellFormed(text);
    match ParseValue(text)
    case Bad =>
    case Good(v, rest) =>
      var s := SkipSpace(rest);
      if s != [] && s[0] == ',' {
        ParsedItemsAreWellFormed(s[1..], done + [v]);
      }
  }

  lemma {:induction false} ParsedObjectIsWellFormed(text: string)
    ensures ParseObject(text).Good? ==> WellFormed(ParseObject(text).value)
    decreases |text|, 2
  {
    ParsedEntriesAreWellFormed(SkipSpace(text), []);
  }

  lemma {:induction false} ParsedEntriesAreWellFormed(text: string, done: seq<Entry>)
    requires WellFormed(Obj(done))
    ensures ParseEntries(text, done).Good? ==> WellFormed(ParseEntries(text, done).value)
    decreases |text|, 1
  {
    match ParseKey(text)
    case Bad =>
    case Good(key, afterKey) =>
      ParsedIsWellFormed(afterKey);
      match ParseValue(afterKey)
      case Bad =>
      case Good(v, rest) =>
        EmplaceWellFormed(done, Entry(key, v));
        var s := SkipSpace(rest);
        if s != [] && s[0] == ',' {
          ParsedEntriesAreWellFormed(s[1..], Emplace(done, Entry(key, v)));
        }
  }

  lemma EmplaceWellFormed(done: seq<Entry>, e: Entry)
    requires WellFormed(Obj(done)) && WellFormed(e.value)
    ensures WellFormed(Obj(Emplace(done, e)))
  {
    EmplaceAscends(done, e);
    EmplaceMembers(done, e);
    var r := Emplace(done, e);
    forall k | 0 <= k < |r| ensures WellFormed(r[k].value) {
      assert r[k] in r;
      if r[k] in done {
        var j :| 0 <= j < |done| && done[j] == r[k];
      }
    }
  }

  /** Canonicalising is idempotent: printing what was parsed and parsing it again changes nothing.  It is defined
      for exactly the documents whose strings hold no control character but newline, carriage return and tab. */
  lemma CanonicalisingIsIdempotent(text: string)
    requires Parse(text).Good? && Writable(Parse(text).value)
    ensures Parse(Print(Parse(text).value)) == Good(Parse(text).value, [])
  {
    ParsedIsWellFormed(text);
    ParseCanonical(Parse(text).value);
  }
}
