/** The parser's cursor and the printer's output string, in place (src/ir/json.cpp). */
module JsonText {
  import opened Ir
  import opened Json
  import opened Wrappers

  /** The cursor stands where the specification's remaining text starts. */
  ghost predicate Agrees<T>(r: Parsed<T>, v: Option<T>, input: string, pos: nat) {
    && pos <= |input|
    && (r.Good? <==> v.Some?)
    && (r.Good? ==> v.value == r.value && input[pos..] == r.rest)
  }

  class Parser {
    const input: string
    var pos: nat

    constructor (input: string)
      ensures this.input == input && pos == 0
    {
      this.input := input;
      pos := 0;
    }

    ghost predicate Valid()
      reads this
    {
      pos <= |input|
    }

    method Space()
      requires Valid()
      modifies this
      ensures Valid() && pos >= old(pos) && input[pos..] == SkipSpace(input[old(pos)..])
    {
      while pos < |input| && IsSpace(input[pos])
        invariant old(pos) <= pos <= |input| && SkipSpace(input[pos..]) == SkipSpace(input[old(pos)..])
        decreases |input| - pos
      {
        assert input[pos..][1..] == input[pos + 1..];
        pos := pos + 1;
      }
    }

    method Take() returns (c: Option<char>)
      requires Valid()
      modifies this
      ensures Valid()
      ensures if old(pos) == |input| then c == None && pos == old(pos) else c == Some(input[old(pos)]) && pos == old(pos) + 1
      ensures var s := input[old(pos)..];
              if s == [] then c == None else c == Some(s[0]) && input[pos..] == s[1..]
    {
      if pos == |input| {
        return None;
      }
      c := Some(input[pos]);
      pos := pos + 1;
    }

    method StringBody() returns (r: Option<string>)
      requires Valid()
      modifies this
      ensures Agrees(ParseBody(input[old(pos)..], []), r, input, pos)
      ensures r.Some? ==> pos > old(pos)
    {
      var done := "";
      while true
        invariant old(pos) <= pos <= |input|
        invariant ParseBody(input[pos..], done) == ParseBody(input[old(pos)..], [])
        decreases |input| - pos
      {
        ghost var here := input[pos..];
        var c := Take();
        if c.None? {
          return None;
        }
        if c.value == '"' {
          return Some(done);
        }
        if c.value == '\\' {
          var e := Take();
          if e.None? || Unescape(e.value).Bad? {
            return None;
          }
          assert here[2..] == input[pos..] && here[1] == e.value;
          done := done + [Unescape(e.value).value];
        } else {
          if IsControl(c.value) {
            return None;
          }
          done := done + [c.value];
        }
      }
    }

    method NumberAt() returns (r: Option<Value>)
      requires Valid() && pos < |input|
      modifies this
      ensures Agrees(ParseNumber(input[old(pos)..]), r, input, pos)
      ensures r.Some? ==> pos > old(pos)
    {
      var negative := input[pos] == '-';
      if negative {
        assert input[pos..][1..] == input[pos + 1..];
        pos := pos + 1;
      }
      r := MagnitudeAt(negative);
    }

    method MagnitudeAt(negative: bool) returns (r: Option<Value>)
      requires Valid()
      modifies this
      ensures Agrees(ParseMagnitude(negative, input[old(pos)..]), r, input, pos)
      ensures r.Some? ==> pos > old(pos)
    {
      ghost var digits := input[pos..];
      var begin := pos;
      if pos == |input| || !IsDigit(input[pos]) {
        return None;
      }
      SkipDigits();
      assert digits[pos - begin..] == input[pos..];
      assert pos < |input| ==> digits[pos - begin] == input[pos];
      if pos < |input| && IsFraction(input[pos]) {
        return None;
      }
      assert input[begin..pos] == digits[..pos - begin];
      r := Ranged(negative, DecimalValue(input[begin..pos]));
    }

    method SkipDigits()
      requires Valid()
      modifies this
      ensures Valid() && pos >= old(pos) && pos - old(pos) == LeadingDigits(input[old(pos)..])
    {
      ghost var digits := input[pos..];
      while pos < |input| && IsDigit(input[pos])
        invariant old(pos) <= pos <= |input|
        invariant LeadingDigits(digits) == pos - old(pos) + LeadingDigits(input[pos..])
        decreases |input| - pos
      {
        assert input[pos..][1..] == input[pos + 1..];
        pos := pos + 1;
      }
    }

    /** Reads a constant if it comes next. */
    method Constant(text: string) returns (found: bool)
      requires Valid() && text != []
      modifies this
      ensures Valid() && (found <==> text <= input[old(pos)..])
      ensures if found then pos > old(pos) && input[pos..] == input[old(pos)..][|text|..] else pos == old(pos)
    {
      found := |text| <= |input| - pos && input[pos..pos + |text|] == text;
      if found {
        assert input[pos..][..|text|] == text;
        pos := pos + |text|;
      }
    }

    method ValueAt() returns (r: Option<Value>)
      requires Valid()
      modifies this
      ensures Agrees(ParseValue(input[old(pos)..]), r, input, pos)
      ensures r.Some? ==> pos > old(pos)
      decreases |input| - pos, 0
    {
      Space();
      if pos == |input| {
        return None;
      }
      var c := input[pos];
      ghost var s := input[pos..];
      if c == '{' {
        pos := pos + 1;
        assert s[1..] == input[pos..];
        r := ObjectAt();
        return;
      }
      if c == '[' {
        pos := pos + 1;
        assert s[1..] == input[pos..];
        r := ArrayAt();
        return;
      }
      if c == '"' {
        pos := pos + 1;
        assert s[1..] == input[pos..];
        var text := StringBody();
        return if text.None? then None else Some(Str(text.value));
      }
      if c == '-' || IsDigit(c) {
        r := NumberAt();
        return;
      }
      r := ConstantAt();
    }

    method ConstantAt() returns (r: Option<Value>)
      requires Valid() && pos < |input|
      modifies this
      ensures Valid() && (r.Some? ==> pos > old(pos))
      ensures var s := input[old(pos)..];
              if "null" <= s then r == Some(Null) && input[pos..] == s[4..]
              else if "true" <= s then r == Some(Bool(true)) && input[pos..] == s[4..]
              else if "false" <= s then r == Some(Bool(false)) && input[pos..] == s[5..]
              else r == None
    {
      var found := Constant("null");
      if found {
        return Some(Null);
      }
      found := Constant("true");
      if found {
        return Some(Bool(true));
      }
      found := Constant("false");
      r := if found then Some(Bool(false)) else None;
    }

    /** The rest of an array after its opening bracket. */
    method ArrayAt() returns (r: Option<Value>)
      requires Valid()
      modifies this
      ensures Agrees(ParseArray(input[old(pos)..]), r, input, pos)
      ensures r.Some? ==> pos > old(pos)
      decreases |input| - pos, 2
    {
      ghost var whole := ParseArray(input[pos..]);
      Space();
      if pos < |input| && input[pos] == ']' {
        assert input[pos..][1..] == input[pos + 1..];
        pos := pos + 1;
        return Some(Arr([]));
      }
      var items: seq<Value> := [];
      while true
        invariant old(pos) <= pos <= |input| && ParseItems(input[pos..], items) == whole
        decreases |input| - pos
      {
        var v := ValueAt();
        if v.None? {
          return None;
        }
        items := items + [v.value];
        Space();
        var c := Take();
        if c.None? {
          return None;
        }
        if c.value == ']' {
          return Some(Arr(items));
        }
        if c.value != ',' {
          return None;
        }
      }
    }

    method KeyAt() returns (r: Option<string>)
      requires Valid()
      modifies this
      ensures Agrees(ParseKey(input[old(pos)..]), r, input, pos)
      ensures r.Some? ==> pos > old(pos)
    {
      Space();
      var quote := Take();
      if quote != Some('"') {
        return None;
      }
      var key := StringBody();
      if key.None? {
        return None;
      }
      Space();
      var colon := Take();
      if colon != Some(':') {
        return None;
      }
      r := key;
    }

    /** The rest of an object after its opening brace. */
    method ObjectAt() returns (r: Option<Value>)
      requires Valid()
      modifies this
      ensures Agrees(ParseObject(input[old(pos)..]), r, input, pos)
      ensures r.Some? ==> pos > old(pos)
      decreases |input| - pos, 2
    {
      ghost var whole := ParseObject(input[pos..]);
      Space();
      if pos < |input| && input[pos] == '}' {
        assert input[pos..][1..] == input[pos + 1..];
        pos := pos + 1;
        return Some(Obj([]));
      }
      var entries: seq<Entry> := [];
      while true
        invariant old(pos) <= pos <= |input| && ParseEntries(input[pos..], entries) == whole
        decreases |input| - pos
      {
        var key := KeyAt();
        if key.None? {
          return None;
        }
        var v := ValueAt();
        if v.None? {
          return None;
        }
        entries := Emplace(entries, Entry(key.value, v.value));
        Space();
        var c := Take();
        if c.None? {
          return None;
        }
        if c.value == '}' {
          return Some(Obj(entries));
        }
        if c.value != ',' {
          return None;
        }
      }
    }

    method Run() returns (r: Option<Value>)
      requires pos == 0
      modifies this
      ensures if Parse(input).Good? then r == Some(Parse(input).value) else r == None
    {
      assert input[0..] == input;
      r := ValueAt();
      if r.Some? {
        Space();
        if pos != |input| {
          r := None;
        }
      }
    }
  }

  /** The integer, unless it is outside the signed 64-bit range. */
  function Ranged(negative: bool, magnitude: nat): Option<Value> {
    var number: int := if negative then 0 - magnitude else magnitude;
    if I64_MIN <= number <= I64_MAX then Some(Int(number)) else None
  }

  method ParseText(text: string) returns (r: Option<Value>)
    ensures if Parse(text).Good? then r == Some(Parse(text).value) else r == None
  {
    var parser := new Parser(text);
    r := parser.Run();
  }

  // ------------------------------------------------------------ printing

  method AppendEscaped(input: string, before: string) returns (ok: bool, out: string)
    ensures ok <==> Printable(input)
    ensures ok ==> out == before + PrintString(input)
  {
    out := before + "\"";
    for k := 0 to |input|
      invariant Printable(input[..k])
      invariant out + PrintBody(input[k..]) == before + PrintString(input)
    {
      var c := input[k];
      assert input[..k + 1] == input[..k] + [c];
      if IsControl(c) && !HasEscape(c) {
        return false, out;
      }
      assert input[k..][1..] == input[k + 1..];
      out := out + Escaped(c);
    }
    assert input[..|input|] == input;
    out := out + "\"";
    ok := true;
  }

  /** Appends a value's canonical text, or fails, exactly when some string cannot be written. */
  method WriteTo(v: Value, before: string) returns (ok: bool, out: string)
    ensures ok <==> Writable(v)
    ensures ok ==> out == before + Print(v)
    decreases v, 1
  {
    match v
    case Null => return true, before + "null";
    case Bool(flag) => return true, before + if flag then "true" else "false";
    case Int(number) => return true, before + PrintInt(number);
    case Str(text) =>
      ok, out := AppendEscaped(text, before);
    case Arr(items) => ok, out := WriteArray(items, before);
    case Obj(entries) => ok, out := WriteObject(entries, before);
  }

  function Separator(i: nat): string {
    if i == 0 then "" else ","
  }

  /** What remains to be printed of an array before item `i`. */
  function ItemsFrom(items: seq<Value>, i: nat): string
    requires i <= |items|
  {
    if i == |items| then "]" else Separator(i) + PrintItems(items[i..])
  }

  lemma ItemsFromStep(items: seq<Value>, i: nat)
    requires i < |items|
    ensures ItemsFrom(items, i) == Separator(i) + (Print(items[i]) + ItemsFrom(items, i + 1))
  {
    assert items[i..][0] == items[i];
    assert items[i..][1..] == items[i + 1..];
  }

  lemma Joins(a: string, b: string, c: string, d: string)
    ensures a + (b + (c + d)) == a + b + c + d
  {}

  lemma ItemPrinted(items: seq<Value>, i: nat, out: string)
    requires i < |items|
    ensures out + ItemsFrom(items, i) == ((out + Separator(i)) + Print(items[i])) + ItemsFrom(items, i + 1)
  {
    ItemsFromStep(items, i);
    Joins(out, Separator(i), Print(items[i]), ItemsFrom(items, i + 1));
  }

  lemma ArrayStarts(items: seq<Value>, before: string)
    ensures (before + "[") + ItemsFrom(items, 0) == before + Print(Arr(items))
  {
    assert items[0..] == items;
    assert "[" + ItemsFrom(items, 0) == Print(Arr(items));
  }

  method AppendItems(items: seq<Value>, before: string) returns (ok: bool, out: string)
    ensures ok <==> forall k | 0 <= k < |items| :: Writable(items[k])
    ensures ok ==> out + "]" == before + ItemsFrom(items, 0)
    decreases items, 0
  {
    out := before;
    for i := 0 to |items|
      invariant forall k | 0 <= k < i :: Writable(items[k])
      invariant out + ItemsFrom(items, i) == before + ItemsFrom(items, 0)
    {
      ItemPrinted(items, i, out);
      ok, out := WriteTo(items[i], out + Separator(i));
      if !ok {
        return;
      }
    }
    ok := true;
  }

  method WriteArray(items: seq<Value>, before: string) returns (ok: bool, out: string)
    ensures ok <==> Writable(Arr(items))
    ensures ok ==> out == before + Print(Arr(items))
    decreases items, 1
  {
    ArrayStarts(items, before);
    ok, out := AppendItems(items, before + "[");
    out := out + "]";
  }

  /** What remains to be printed of an object before entry `i`. */
  function EntriesFrom(entries: seq<Entry>, i: nat): string
    requires i <= |entries|
  {
    if i == |entries| then "}" else Separator(i) + PrintEntries(entries[i..])
  }

  lemma EntriesFromStep(entries: seq<Entry>, i: nat)
    requires i < |entries|
    ensures EntriesFrom(entries, i) ==
            Separator(i) + (PrintString(entries[i].key) + (":" + (Print(entries[i].value) + EntriesFrom(entries, i + 1))))
  {
    var rest := entries[i..];
    assert rest[0] == entries[i];
    assert rest[1..] == entries[i + 1..];
    assert PrintEntries(rest) == PrintString(rest[0].key) + (":" + (Print(rest[0].value) + CloseEntry(rest)));
    assert i + 1 < |entries| ==> CloseEntry(rest) == "," + PrintEntries(entries[i + 1..]);
    assert CloseEntry(rest) == EntriesFrom(entries, i + 1);
  }

  method WriteEntry(e: Entry, before: string) returns (ok: bool, out: string)
    ensures ok <==> Printable(e.key) && Writable(e.value)
    ensures ok ==> out == before + PrintString(e.key) + ":" + Print(e.value)
    decreases e, 2
  {
    ok, out := AppendEscaped(e.key, before);
    if !ok {
      return;
    }
    ok, out := WriteTo(e.value, out + ":");
  }

  /** What has been written, with the entries still to come, is the whole. */
  ghost predicate WrittenTo(entries: seq<Entry>, i: nat, out: string, before: string)
    requires i <= |entries|
  {
    out + EntriesFrom(entries, i) == before + EntriesFrom(entries, 0)
  }

  lemma EntryWritten(entries: seq<Entry>, i: nat, out: string, next: string, before: string)
    requires i < |entries| && WrittenTo(entries, i, out, before)
    requires next == (out + Separator(i)) + PrintString(entries[i].key) + ":" + Print(entries[i].value)
    ensures WrittenTo(entries, i + 1, next, before)
  {
    EntriesFromStep(entries, i);
    JoinsEntry(out, Separator(i), PrintString(entries[i].key), Print(entries[i].value), EntriesFrom(entries, i + 1));
  }

  lemma AllWritten(entries: seq<Entry>, out: string, before: string)
    ensures WrittenTo(entries, 0, before, before)
    ensures WrittenTo(entries, |entries|, out, before) ==> out + "}" == before + EntriesFrom(entries, 0)
  {}

  lemma ObjectStarts(entries: seq<Entry>, before: string)
    ensures (before + "{") + EntriesFrom(entries, 0) == before + Print(Obj(entries))
  {
    assert entries[0..] == entries;
    assert "{" + EntriesFrom(entries, 0) == Print(Obj(entries));
  }

  /** The first `count` entries can be written. */
  ghost predicate WritableTo(entries: seq<Entry>, count: nat)
    requires count <= |entries|
  {
    forall k | 0 <= k < count :: Printable(entries[k].key) && Writable(entries[k].value)
  }

  lemma WritableNext(entries: seq<Entry>, i: nat)
    requires i < |entries|
    ensures WritableTo(entries, 0)
    ensures WritableTo(entries, i + 1) <==> WritableTo(entries, i) && Printable(entries[i].key) && Writable(entries[i].value)
    ensures WritableTo(entries, |entries|) ==> WritableTo(entries, i + 1)
  {}

  method AppendEntries(entries: seq<Entry>, before: string) returns (ok: bool, out: string)
    ensures ok <==> WritableTo(entries, |entries|)
    ensures ok ==> out + "}" == before + EntriesFrom(entries, 0)
    decreases entries, 0
  {
    out := before;
    AllWritten(entries, out, before);
    for i := 0 to |entries|
      invariant WritableTo(entries, i)
      invariant WrittenTo(entries, i, out, before)
    {
      ghost var written := out;
      WritableNext(entries, i);
      ok, out := WriteEntry(entries[i], out + Separator(i));
      if !ok {
        return;
      }
      EntryWritten(entries, i, written, out, before);
    }
    AllWritten(entries, out, before);
    ok := true;
  }

  method WriteObject(entries: seq<Entry>, before: string) returns (ok: bool, out: string)
    ensures ok <==> Writable(Obj(entries))
    ensures ok ==> out == before + Print(Obj(entries))
    decreases entries, 1
  {
    ObjectStarts(entries, before);
    ok, out := AppendEntries(entries, before + "{");
    assert WritableTo(entries, |entries|) <==> Writable(Obj(entries));
    out := out + "}";
  }

  lemma JoinsEntry(out: string, separator: string, key: string, value: string, rest: string)
    ensures out + (separator + (key + (":" + (value + rest)))) == (out + separator) + key + ":" + value + rest
  {}

  /** Printing succeeds exactly for writable values, and parsing the text gives the value back. */
  method Canonical(v: Value) returns (r: Option<string>)
    requires WellFormed(v)
    ensures r.Some? <==> Writable(v)
    ensures r.Some? ==> r.value == Print(v) && Parse(r.value) == Good(v, [])
  {
    var ok, text := WriteTo(v, "");
    if !ok {
      return None;
    }
    ParseCanonical(v);
    r := Some(text);
  }
}
