/** Documents as people write them: white space between tokens, keys in any order, every escape
    (src/ir/json.cpp). */
module JsonLayouts {
  import opened Ir
  import opened Json

  /** Space, tab, newline, vertical tab, form feed and carriage return, any number of them. */
  predicate Gap(s: string) {
    forall k | 0 <= k < |s| :: s[k] == ' ' || s[k] == '\t' || s[k] == '\n' || s[k] == 11 as char || s[k] == 12 as char || s[k] == '\r'
  }

  /** A value with the white space that is written around its tokens. */
  datatype Layout =
    | Leaf(before: string, scalar: Value)
    | Listed(before: string, empty: string, items: seq<Item>)
    | Mapped(before: string, empty: string, fields: seq<Field>)

  datatype Item = Item(layout: Layout, after: string)

  datatype Field = Field(before: string, key: string, beforeColon: string, layout: Layout, after: string)

  /** Every gap is white space, leaves are scalars, and strings can be printed. */
  predicate Proper(l: Layout) {
    && Gap(l.before)
    && match l
       case Leaf(_, scalar) => !scalar.Arr? && !scalar.Obj? && Writable(scalar)
       case Listed(_, empty, items) => Gap(empty) && forall i | i in items :: Proper(i.layout) && Gap(i.after)
       case Mapped(_, empty, fields) =>
         Gap(empty) && forall f | f in fields ::
           Gap(f.before) && Printable(f.key) && Gap(f.beforeColon) && Proper(f.layout) && Gap(f.after)
  }

  function Text(l: Layout): string
    decreases l, 2
  {
    l.before + Core(l)
  }

  /** The text behind the gap. */
  function Core(l: Layout): string
    decreases l, 1
  {
    match l
    case Leaf(_, scalar) => Print(scalar)
    case Listed(_, empty, items) => "[" + if items == [] then empty + "]" else ItemsText(items)
    case Mapped(_, empty, fields) => "{" + if fields == [] then empty + "}" else FieldsText(fields)
  }

  function ItemsText(items: seq<Item>): string
    requires items != []
    decreases items, 0
  {
    Text(items[0].layout) + (items[0].after + if |items| == 1 then "]" else "," + ItemsText(items[1..]))
  }

  function FieldsText(fields: seq<Field>): string
    requires fields != []
    decreases fields, 0
  {
    var f := fields[0];
    f.before + (PrintString(f.key) + (f.beforeColon + (":" +
      (Text(f.layout) + (f.after + if |fields| == 1 then "}" else "," + FieldsText(fields[1..]))))))
  }

  function ValueOf(l: Layout): Value {
    match l
    case Leaf(_, scalar) => scalar
    case Listed(_, _, items) => Arr(seq(|items|, k requires 0 <= k < |items| => ValueOf(items[k].layout)))
    case Mapped(_, _, fields) => Obj(MapOf(seq(|fields|, k requires 0 <= k < |fields| => Entry(fields[k].key, ValueOf(fields[k].layout)))))
  }

  // ------------------------------------------------------------ gaps are skipped

  lemma {:induction false} GapSkipped(gap: string, s: string)
    requires Gap(gap)
    ensures SkipSpace(gap + s) == SkipSpace(s)
  {
    if gap == [] {
      assert gap + s == s;
    } else {
      assert (gap + s)[1..] == gap[1..] + s;
      GapSkipped(gap[1..], s);
    }
  }

  lemma GapThen(gap: string, s: string)
    requires Gap(gap) && s != [] && !IsSpace(s[0])
    ensures SkipSpace(gap + s) == s
  {
    GapSkipped(gap, s);
  }

  lemma ValueAfterGap(gap: string, s: string)
    requires Gap(gap)
    ensures ParseValue(gap + s) == ParseValue(s)
  {
    GapSkipped(gap, s);
  }

  lemma GapIsDelimited(gap: string, c: char, t: string)
    requires Gap(gap) && !IsDigit(c) && !IsFraction(c)
    ensures Delimited(gap + ([c] + t))
  {}

  // ------------------------------------------------------------ layouts are read

  lemma {:induction false} LayoutReads(l: Layout, t: string)
    requires Proper(l) && Delimited(t)
    ensures ParseValue(Text(l) + t) == Good(ValueOf(l), t)
    decreases l, 3
  {
    StringAssociates(l.before, Core(l), t);
    ValueAfterGap(l.before, Core(l) + t);
    CoreReads(l, t);
  }

  lemma {:induction false} CoreReads(l: Layout, t: string)
    requires Proper(l) && Delimited(t)
    ensures ParseValue(Core(l) + t) == Good(ValueOf(l), t)
    decreases l, 2
  {
    match l
    case Leaf(_, scalar) => ReadsBack(scalar, t);
    case Listed(_, empty, items) => ListReads(l, t);
    case Mapped(_, empty, fields) => MapReads(l, t);
  }

  lemma Bracketed(text: string, t: string)
    ensures ParseValue(("[" + text) + t) == ParseArray(text + t)
    ensures ParseValue(("{" + text) + t) == ParseObject(text + t)
  {
    assert (("[" + text) + t)[1..] == text + t;
    assert (("{" + text) + t)[1..] == text + t;
  }

  lemma EmptyBrackets(empty: string, t: string)
    requires Gap(empty)
    ensures ParseArray((empty + "]") + t) == Good(Arr([]), t)
    ensures ParseObject((empty + "}") + t) == Good(Obj([]), t)
  {
    StringAssociates(empty, "]", t);
    StringAssociates(empty, "}", t);
    GapThen(empty, "]" + t);
    GapThen(empty, "}" + t);
    assert ("]" + t)[1..] == t && ("}" + t)[1..] == t;
  }

  lemma {:induction false} ListReads(l: Layout, t: string)
    requires l.Listed? && Proper(l)
    ensures ParseValue(Core(l) + t) == Good(ValueOf(l), t)
    decreases l, 1
  {
    var items := l.items;
    Bracketed(if items == [] then l.empty + "]" else ItemsText(items), t);
    if items == [] {
      EmptyBrackets(l.empty, t);
    } else {
      ItemsStart(items, t);
      ItemsRead(items, [], t);
      assert [] + Values(items) == Values(items);
    }
    assert ValueOf(l) == Arr(Values(items));
  }

  lemma {:induction false} SkipTwice(s: string)
    ensures SkipSpace(SkipSpace(s)) == SkipSpace(s)
  {
    if s != [] && IsSpace(s[0]) {
      SkipTwice(s[1..]);
    }
  }

  /** A layout starts, behind its gap, with the first character of a value. */
  lemma TextStarts(l: Layout, t: string)
    requires Proper(l)
    ensures var s := SkipSpace(Text(l) + t);
            s != [] && s[0] != ']' && s[0] != '}'
  {
    var core := Core(l);
    StringAssociates(l.before, core, t);
    if l.Leaf? {
      PrintStarts(l.scalar);
    }
    assert core != [] && !IsSpace(core[0]) && core[0] != ']' && core[0] != '}';
    GapThen(l.before, core + t);
  }

  lemma ItemsSkip(s: string, done: seq<Value>)
    ensures ParseItems(SkipSpace(s), done) == ParseItems(s, done)
  {
    SkipTwice(s);
  }

  lemma ItemsAt(items: seq<Item>, t: string)
    requires items != []
    ensures ItemsText(items) + t == Text(items[0].layout) + (items[0].after + (CloseItems(items) + t))
  {}

  /** What stands behind an item and its gap. */
  function CloseItems(items: seq<Item>): string
    requires items != []
  {
    if |items| == 1 then "]" else "," + ItemsText(items[1..])
  }

  lemma ItemsStart(items: seq<Item>, t: string)
    requires items != [] && Proper(items[0].layout)
    ensures ParseArray(ItemsText(items) + t) == ParseItems(ItemsText(items) + t, [])
  {
    ItemsAt(items, t);
    TextStarts(items[0].layout, items[0].after + (CloseItems(items) + t));
    ItemsSkip(ItemsText(items) + t, []);
  }

  lemma ItemStep(text: string, v: Value, tail: string, done: seq<Value>)
    requires ParseValue(text + tail) == Good(v, tail)
    ensures ParseItems(text + tail, done) == AfterItem(tail, done + [v])
  {}

  function Values(items: seq<Item>): (r: seq<Value>)
    ensures |r| == |items| && forall k | 0 <= k < |r| :: r[k] == ValueOf(items[k].layout)
  {
    seq(|items|, k requires 0 <= k < |items| => ValueOf(items[k].layout))
  }

  lemma AfterGapItem(gap: string, close: string, done: seq<Value>, t: string)
    requires Gap(gap) && close != [] && (close[0] == ']' || close[0] == ',')
    ensures AfterItem(gap + (close + t), done) ==
            if close[0] == ']' then Good(Arr(done), close[1..] + t) else ParseItems(close[1..] + t, done)
    ensures Delimited(gap + (close + t))
  {
    GapThen(gap, close + t);
    assert (close + t)[1..] == close[1..] + t;
  }

  lemma {:induction false} ItemsRead(items: seq<Item>, done: seq<Value>, t: string)
    requires items != [] && forall i | i in items :: Proper(i.layout) && Gap(i.after)
    ensures ParseItems(ItemsText(items) + t, done) == Good(Arr(done + Values(items)), t)
    decreases items, 0
  {
    var i, close := items[0], CloseItems(items);
    var v, tail := ValueOf(i.layout), i.after + (close + t);
    ItemsAt(items, t);
    AfterGapItem(i.after, close, done + [v], t);
    LayoutReads(i.layout, tail);
    ItemStep(Text(i.layout), v, tail, done);
    ValuesFirst(items, done);
    if |items| == 1 {
      assert close[1..] + t == t;
    } else {
      assert close[1..] == ItemsText(items[1..]);
      ItemsRead(items[1..], done + [v], t);
    }
  }

  lemma ValuesFirst(items: seq<Item>, done: seq<Value>)
    requires items != []
    ensures (done + [ValueOf(items[0].layout)]) + Values(items[1..]) == done + Values(items)
    ensures |items| == 1 ==> done + [ValueOf(items[0].layout)] == done + Values(items)
  {}

  // ------------------------------------------------------------ objects

  function Entries(fields: seq<Field>): (r: seq<Entry>)
    ensures |r| == |fields| && forall k | 0 <= k < |r| :: r[k] == Entry(fields[k].key, ValueOf(fields[k].layout))
  {
    seq(|fields|, k requires 0 <= k < |fields| => Entry(fields[k].key, ValueOf(fields[k].layout)))
  }

  lemma {:induction false} MapReads(l: Layout, t: string)
    requires l.Mapped? && Proper(l)
    ensures ParseValue(Core(l) + t) == Good(ValueOf(l), t)
    decreases l, 1
  {
    var text := if l.fields == [] then l.empty + "}" else FieldsText(l.fields);
    assert Core(l) == "{" + text;
    Bracketed(text, t);
    MappedValue(l);
    if l.fields == [] {
      EmptyBrackets(l.empty, t);
    } else {
      FieldsFromStart(l.fields, t);
    }
  }

  lemma MappedValue(l: Layout)
    requires l.Mapped?
    ensures ValueOf(l) == Obj(MapOf(Entries(l.fields))) && (l.fields == [] ==> ValueOf(l) == Obj([]))
  {}

  lemma {:induction false} FieldsFromStart(fields: seq<Field>, t: string)
    requires fields != [] && AllProper(fields)
    ensures ParseObject(FieldsText(fields) + t) == Good(Obj(MapOf(Entries(fields))), t)
    decreases fields, 1
  {
    FieldsStart(fields, t);
    FieldsRead(fields, [], t);
    assert [] + Entries(fields) == Entries(fields) && MapOf([]) == [];
  }

  predicate AllProper(fields: seq<Field>) {
    forall f | f in fields :: Gap(f.before) && Printable(f.key) && Gap(f.beforeColon) && Proper(f.layout) && Gap(f.after)
  }

  /** What stands behind a key, and behind a value. */
  function AfterKey(fields: seq<Field>): string
    requires fields != []
  {
    Text(fields[0].layout) + (fields[0].after + CloseField(fields))
  }

  function CloseField(fields: seq<Field>): string
    requires fields != []
  {
    if |fields| == 1 then "}" else "," + FieldsText(fields[1..])
  }

  lemma FieldsSplit(fields: seq<Field>, t: string)
    requires fields != []
    ensures var f := fields[0];
            FieldsText(fields) + t == f.before + (PrintString(f.key) + (f.beforeColon + (":" + (AfterKey(fields) + t))))
  {}

  lemma FieldsStart(fields: seq<Field>, t: string)
    requires fields != [] && Gap(fields[0].before)
    ensures ParseObject(FieldsText(fields) + t) == ParseEntries(FieldsText(fields) + t, [])
  {
    var f, s := fields[0], FieldsText(fields) + t;
    FieldsSplit(fields, t);
    GapThen(f.before, PrintString(f.key) + (f.beforeColon + (":" + (AfterKey(fields) + t))));
    EntriesSkip(s, []);
  }

  lemma EntriesSkip(s: string, done: seq<Entry>)
    ensures ParseEntries(SkipSpace(s), done) == ParseEntries(s, done)
  {
    SkipTwice(s);
  }

  lemma KeyRead(before: string, key: string, beforeColon: string, t: string)
    requires Gap(before) && Printable(key) && Gap(beforeColon)
    ensures ParseKey(before + (PrintString(key) + (beforeColon + (":" + t)))) == Good(key, t)
  {
    var s := PrintString(key) + (beforeColon + (":" + t));
    GapThen(before, s);
    assert s[0] == '"' && s[1..] == PrintBody(key) + (beforeColon + (":" + t));
    BodyReadsBack(key, [], beforeColon + (":" + t));
    assert [] + key == key;
    GapThen(beforeColon, ":" + t);
    assert (":" + t)[1..] == t;
  }

  lemma AfterGapEntry(gap: string, close: string, done: seq<Entry>, t: string)
    requires Gap(gap) && close != [] && (close[0] == '}' || close[0] == ',')
    ensures AfterEntry(gap + (close + t), done) ==
            if close[0] == '}' then Good(Obj(done), close[1..] + t) else ParseEntries(close[1..] + t, done)
    ensures Delimited(gap + (close + t))
  {
    GapThen(gap, close + t);
    assert (close + t)[1..] == close[1..] + t;
  }

  lemma MapOfNext(done: seq<Entry>, e: Entry)
    ensures MapOf(done + [e]) == Emplace(MapOf(done), e)
  {
    assert (done + [e])[..|done|] == done;
  }

  /** One field is read and leaves what stands behind its value. */
  lemma FieldReads(
    before: string, key: string, beforeColon: string, text: string, tail: string, v: Value, done: seq<Entry>)
    requires Gap(before) && Printable(key) && Gap(beforeColon) && ParseValue(text + tail) == Good(v, tail)
    ensures ParseEntries(before + (PrintString(key) + (beforeColon + (":" + (text + tail)))), done) ==
            AfterEntry(tail, Emplace(done, Entry(key, v)))
  {
    KeyRead(before, key, beforeColon, text + tail);
  }

  lemma FieldsAt(fields: seq<Field>, t: string)
    requires fields != []
    ensures var f := fields[0];
            FieldsText(fields) + t ==
            f.before + (PrintString(f.key) + (f.beforeColon + (":" + (Text(f.layout) + (f.after + (CloseField(fields) + t))))))
  {
    FieldsSplit(fields, t);
    assert AfterKey(fields) + t == Text(fields[0].layout) + (fields[0].after + (CloseField(fields) + t));
  }

  lemma {:induction false} FieldsRead(fields: seq<Field>, done: seq<Entry>, t: string)
    requires fields != [] && AllProper(fields)
    ensures ParseEntries(FieldsText(fields) + t, MapOf(done)) == Good(Obj(MapOf(done + Entries(fields))), t)
    decreases fields, 0
  {
    var f, close := fields[0], CloseField(fields);
    var e := Entry(f.key, ValueOf(f.layout));
    AfterGapEntry(f.after, close, MapOf(done + [e]), t);
    LayoutReads(f.layout, f.after + (close + t));
    FieldsAt(fields, t);
    FieldReads(f.before, f.key, f.beforeColon, Text(f.layout), f.after + (close + t), e.value, MapOf(done));
    MapOfNext(done, e);
    EntriesFirst(fields, done);
    if |fields| == 1 {
      assert close[1..] + t == t;
    } else {
      assert close[1..] == FieldsText(fields[1..]);
      FieldsRead(fields[1..], done + [e], t);
    }
  }

  lemma EntriesFirst(fields: seq<Field>, done: seq<Entry>)
    requires fields != []
    ensures var e := Entry(fields[0].key, ValueOf(fields[0].layout));
            && (done + [e]) + Entries(fields[1..]) == done + Entries(fields)
            && (|fields| == 1 ==> done + [e] == done + Entries(fields))
  {}

  // ------------------------------------------------------------ whole documents

  /** However a document is laid out, it is read as the value it is a layout of. */
  lemma LayoutParses(l: Layout, after: string)
    requires Proper(l) && Gap(after)
    ensures Parse(Text(l) + after) == Good(ValueOf(l), [])
  {
    assert after == [] || (!IsDigit(after[0]) && !IsFraction(after[0]));
    LayoutReads(l, after);
    GapSkipped(after, []);
    assert after + [] == after;
  }

  /** So white space makes no difference: the document reads as its value's canonical text does. */
  lemma GapsDoNotMatter(l: Layout, after: string)
    requires Proper(l) && Gap(after) && Writable(ValueOf(l)) && WellFormed(ValueOf(l))
    ensures Parse(Text(l) + after) == Parse(Print(ValueOf(l)))
  {
    LayoutParses(l, after);
    ParseCanonical(ValueOf(l));
  }

  // ------------------------------------------------------------ escapes

  /** Inside a string a backslash and one of these letters stand for that character, and any other letter fails. */
  lemma EscapesRead(letter: char, rest: string, done: string)
    ensures var r := ParseBody(['\\', letter] + rest, done);
            match letter
            case '"' => r == ParseBody(rest, done + ['"'])
            case '\\' => r == ParseBody(rest, done + ['\\'])
            case '/' => r == ParseBody(rest, done + ['/'])
            case 'b' => r == ParseBody(rest, done + [8 as char])
            case 'f' => r == ParseBody(rest, done + [12 as char])
            case 'n' => r == ParseBody(rest, done + [10 as char])
            case 'r' => r == ParseBody(rest, done + [13 as char])
            case 't' => r == ParseBody(rest, done + [9 as char])
            case _ => r == Bad
  {
    var s := ['\\', letter] + rest;
    assert s[2..] == rest;
  }

  // ------------------------------------------------------------ what is refused

  /** Digits are a number exactly if no fraction or exponent follows and it fits 64 bits with its sign. */
  lemma NumberExactly(negative: bool, d: string, t: string)
    requires AllDigits(d) && d != [] && (t == [] || !IsDigit(t[0]))
    ensures var n: int := if negative then 0 - DecimalValue(d) else DecimalValue(d);
            ParseMagnitude(negative, d + t) ==
            if (t != [] && (t[0] == '.' || t[0] == 'e' || t[0] == 'E')) || n < -0x8000_0000_0000_0000 || n > 0x7FFF_FFFF_FFFF_FFFF
            then Bad else Good(Int(n), t)
  {
    LeadingDigitsExact(d, t);
    assert (d + t)[..|d|] == d && (d + t)[|d|..] == t;
    assert t != [] ==> (d + t)[|d|] == t[0];
  }

  /** No string holds a control character as it is. */
  lemma ControlRefused(c: char, rest: string, done: string)
    requires c as int < 32
    ensures ParseBody([c] + rest, done) == Bad
  {}

  /** Nothing may follow a document but white space. */
  lemma TrailingRefused(l: Layout, gap: string, c: char, rest: string)
    requires Proper(l) && Gap(gap) && !Gap([c]) && !IsDigit(c) && !IsFraction(c)
    ensures Parse(Text(l) + (gap + ([c] + rest))) == Bad
  {
    var t := gap + ([c] + rest);
    assert [c][0] == c && !IsSpace(c);
    GapIsDelimited(gap, c, rest);
    LayoutReads(l, t);
    GapThen(gap, [c] + rest);
  }
}
