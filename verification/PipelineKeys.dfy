/** Pipeline keys: their canonical text, the classification that builds them and the cache they index
    (src/compiler/pipeline_classification.h, src/compiler/pipeline_classification.cpp). */
module PipelineKeys {
  import opened Ir
  import opened Wrappers
  import opened Json

  datatype Pair = Pair(name: string, value: U64)

  datatype PipelineKey = PipelineKey(
    codeObjectHash: string, entry: string, functionConstants: seq<Pair>, attachmentFormats: seq<U32>,
    sampleCount: U32, rasterState: seq<Pair>, targetIdentity: string)

  // ------------------------------------------------------------ sorting

  /** The order of name-value pairs. */
  predicate PairLess(a: Pair, b: Pair) {
    KeyLess(a.name, b.name) || (a.name == b.name && a.value < b.value)
  }

  predicate PairAtMost(a: Pair, b: Pair) {
    a == b || PairLess(a, b)
  }

  lemma PairOrder(a: Pair, b: Pair, c: Pair)
    ensures PairAtMost(a, b) || PairAtMost(b, a)
    ensures PairAtMost(a, b) && PairAtMost(b, a) ==> a == b
    ensures PairAtMost(a, b) && PairAtMost(b, c) ==> PairAtMost(a, c)
  {
    KeyLessTrichotomy(a.name, b.name);
    KeyLessTrichotomy(b.name, b.name);
    if KeyLess(a.name, b.name) && KeyLess(b.name, c.name) {
      KeyLessTransitive(a.name, b.name, c.name);
    }
  }

  ghost predicate PairsAscend(s: seq<Pair>) {
    forall i, j | 0 <= i < j < |s| :: PairAtMost(s[i], s[j])
  }

  function InsertPair(p: Pair, s: seq<Pair>): (r: seq<Pair>)
    ensures multiset(r) == multiset{p} + multiset(s)
  {
    if s == [] || PairAtMost(p, s[0]) then [p] + s
    else
      assert s == [s[0]] + s[1..];
      [s[0]] + InsertPair(p, s[1..])
  }

  function SortPairs(s: seq<Pair>): (r: seq<Pair>)
    ensures multiset(r) == multiset(s)
  {
    if s == [] then []
    else
      assert s == [s[0]] + s[1..];
      InsertPair(s[0], SortPairs(s[1..]))
  }

  lemma {:induction false} InsertPairAscends(p: Pair, s: seq<Pair>)
    requires PairsAscend(s)
    ensures PairsAscend(InsertPair(p, s))
  {
    if s == [] {
    } else if PairAtMost(p, s[0]) {
      forall j | 0 <= j < |s| ensures PairAtMost(p, s[j]) {
        PairOrder(p, s[0], s[j]);
      }
    } else {
      InsertPairAscends(p, s[1..]);
      PairOrder(p, s[0], p);
      var rest := InsertPair(p, s[1..]);
      forall j | 0 <= j < |rest| ensures PairAtMost(s[0], rest[j]) {
        assert rest[j] in multiset(rest);
        if rest[j] != p {
          assert rest[j] in multiset(s[1..]);
          assert rest[j] in s[1..];
        }
      }
    }
  }

  lemma {:induction false} SortPairsAscends(s: seq<Pair>)
    ensures PairsAscend(SortPairs(s))
  {
    if s != [] {
      SortPairsAscends(s[1..]);
      InsertPairAscends(s[0], SortPairs(s[1..]));
    }
  }

  lemma FirstIsLeast(a: seq<Pair>, p: Pair)
    requires PairsAscend(a) && a != [] && p in multiset(a)
    ensures PairAtMost(a[0], p)
  {
    assert p in a;
    var k :| 0 <= k < |a| && a[k] == p;
    if k > 0 {
      assert PairAtMost(a[0], a[k]);
    }
  }

  lemma RestOf(a: seq<Pair>)
    requires a != []
    ensures a == [a[0]] + a[1..] && multiset(a[1..]) == multiset(a) - multiset{a[0]} && a[0] in multiset(a)
  {
    assert a == [a[0]] + a[1..];
  }

  /** A multiset has one ascending listing. */
  lemma {:induction false} AscendingUnique(a: seq<Pair>, b: seq<Pair>)
    requires PairsAscend(a) && PairsAscend(b) && multiset(a) == multiset(b)
    ensures a == b
  {
    assert |multiset(a)| == |multiset(b)|;
    if a != [] {
      RestOf(a);
      RestOf(b);
      FirstIsLeast(a, b[0]);
      FirstIsLeast(b, a[0]);
      PairOrder(a[0], b[0], a[0]);
      AscendingUnique(a[1..], b[1..]);
    }
  }

  // ------------------------------------------------------------ canonical text

  function EmitText(field: string, value: string): string {
    field + ("=" + (Digits(|value|) + (":" + (value + "\n"))))
  }

  function EmitPair(p: Pair): string {
    "  " + (Digits(|p.name|) + (":" + (p.name + ("=" + (Digits(p.value) + "\n")))))
  }

  function EmitPairLines(s: seq<Pair>): string {
    if s == [] then "" else EmitPair(s[0]) + EmitPairLines(s[1..])
  }

  function EmitPairs(field: string, s: seq<Pair>): string {
    field + ("=" + (Digits(|s|) + ("\n" + EmitPairLines(SortPairs(s)))))
  }

  /** One line per format from `index` on. */
  function EmitFormatLines(formats: seq<U32>, index: nat): string
    requires index <= |formats|
    decreases |formats| - index
  {
    if index == |formats| then ""
    else "  " + (Digits(index) + ("=" + (Digits(formats[index]) + ("\n" + EmitFormatLines(formats, index + 1)))))
  }

  function EmitFormats(formats: seq<U32>): string {
    "attachment_formats=" + (Digits(|formats|) + ("\n" + EmitFormatLines(formats, 0)))
  }

  function Canonical(k: PipelineKey): string {
    EmitText("code_object_hash", k.codeObjectHash)
    + (EmitText("entry", k.entry)
    + (EmitPairs("function_constants", k.functionConstants)
    + (EmitFormats(k.attachmentFormats)
    + (("sample_count=" + (Digits(k.sampleCount) + "\n"))
    + (EmitPairs("raster_state", k.rasterState)
    + EmitText("target_identity", k.targetIdentity))))))
  }

  /** Same key up to the order in which constants and raster state are listed. */
  ghost predicate SameKey(a: PipelineKey, b: PipelineKey) {
    && a.codeObjectHash == b.codeObjectHash && a.entry == b.entry
    && multiset(a.functionConstants) == multiset(b.functionConstants)
    && a.attachmentFormats == b.attachmentFormats && a.sampleCount == b.sampleCount
    && multiset(a.rasterState) == multiset(b.rasterState)
    && a.targetIdentity == b.targetIdentity
  }

  // ------------------------------------------------------------ reading a text one way only

  lemma CancelPrefix(a: string, x: string, y: string)
    requires a + x == a + y
    ensures x == y
  {
    assert (a + x)[|a|..] == x && (a + y)[|a|..] == y;
  }

  lemma CancelSameLength(a: string, b: string, x: string, y: string)
    requires a + x == b + y && |a| == |b|
    ensures a == b && x == y
  {
    assert (a + x)[..|a|] == a && (b + y)[..|b|] == b;
    assert (a + x)[|a|..] == x && (b + y)[|b|..] == y;
  }

  /** A number ends where its digits do. */
  lemma NumberReadsOneWay(m: nat, n: nat, x: string, y: string)
    requires Digits(m) + x == Digits(n) + y
    requires x != [] && y != [] && !IsDigit(x[0]) && !IsDigit(y[0])
    ensures m == n && x == y
  {
    LeadingDigitsExact(Digits(m), x);
    LeadingDigitsExact(Digits(n), y);
    CancelSameLength(Digits(m), Digits(n), x, y);
    DecimalOfDigits(m);
    DecimalOfDigits(n);
  }

  lemma Rightward(a: string, b: string, c: string)
    ensures (a + b) + c == a + (b + c)
  {}

  /** A length-delimited text ends where its length says. */
  lemma DelimitedReadsOneWay(v: string, w: string, x: string, y: string)
    requires Digits(|v|) + (":" + (v + x)) == Digits(|w|) + (":" + (w + y))
    ensures v == w && x == y
  {
    NumberReadsOneWay(|v|, |w|, ":" + (v + x), ":" + (w + y));
    CancelPrefix(":", v + x, w + y);
    CancelSameLength(v, w, x, y);
  }

  lemma TextReadsOneWay(field: string, v: string, w: string, x: string, y: string)
    requires EmitText(field, v) + x == EmitText(field, w) + y
    ensures v == w && x == y
  {
    TextSplits(field, v, x);
    TextSplits(field, w, y);
    CancelPrefix(field, "=" + (Digits(|v|) + (":" + (v + ("\n" + x)))), "=" + (Digits(|w|) + (":" + (w + ("\n" + y)))));
    CancelPrefix("=", Digits(|v|) + (":" + (v + ("\n" + x))), Digits(|w|) + (":" + (w + ("\n" + y))));
    DelimitedReadsOneWay(v, w, "\n" + x, "\n" + y);
    CancelPrefix("\n", x, y);
  }

  lemma TextSplits(field: string, v: string, x: string)
    ensures EmitText(field, v) + x == field + ("=" + (Digits(|v|) + (":" + (v + ("\n" + x)))))
  {
    Rightward(field, "=" + (Digits(|v|) + (":" + (v + "\n"))), x);
    Rightward("=", Digits(|v|) + (":" + (v + "\n")), x);
    Rightward(Digits(|v|), ":" + (v + "\n"), x);
    Rightward(":", v + "\n", x);
    Rightward(v, "\n", x);
  }

  lemma PairSplits(p: Pair, x: string)
    ensures EmitPair(p) + x == "  " + (Digits(|p.name|) + (":" + (p.name + ("=" + (Digits(p.value) + ("\n" + x))))))
  {
    Rightward("  ", Digits(|p.name|) + (":" + (p.name + ("=" + (Digits(p.value) + "\n")))), x);
    Rightward(Digits(|p.name|), ":" + (p.name + ("=" + (Digits(p.value) + "\n"))), x);
    Rightward(":", p.name + ("=" + (Digits(p.value) + "\n")), x);
    Rightward(p.name, "=" + (Digits(p.value) + "\n"), x);
    Rightward("=", Digits(p.value) + "\n", x);
    Rightward(Digits(p.value), "\n", x);
  }

  lemma PairReadsOneWay(p: Pair, q: Pair, x: string, y: string)
    requires EmitPair(p) + x == EmitPair(q) + y
    ensures p == q && x == y
  {
    PairSplits(p, x);
    PairSplits(q, y);
    var a, b := "=" + (Digits(p.value) + ("\n" + x)), "=" + (Digits(q.value) + ("\n" + y));
    CancelPrefix("  ", Digits(|p.name|) + (":" + (p.name + a)), Digits(|q.name|) + (":" + (q.name + b)));
    DelimitedReadsOneWay(p.name, q.name, a, b);
    CancelPrefix("=", Digits(p.value) + ("\n" + x), Digits(q.value) + ("\n" + y));
    NumberReadsOneWay(p.value, q.value, "\n" + x, "\n" + y);
    CancelPrefix("\n", x, y);
  }

  lemma {:induction false} PairLinesReadOneWay(s: seq<Pair>, t: seq<Pair>, x: string, y: string)
    requires |s| == |t| && EmitPairLines(s) + x == EmitPairLines(t) + y
    ensures s == t && x == y
  {
    if s != [] {
      Rightward(EmitPair(s[0]), EmitPairLines(s[1..]), x);
      Rightward(EmitPair(t[0]), EmitPairLines(t[1..]), y);
      PairReadsOneWay(s[0], t[0], EmitPairLines(s[1..]) + x, EmitPairLines(t[1..]) + y);
      PairLinesReadOneWay(s[1..], t[1..], x, y);
      assert s == [s[0]] + s[1..] && t == [t[0]] + t[1..];
    } else {
      assert EmitPairLines(s) + x == x && EmitPairLines(t) + y == y;
    }
  }

  lemma PairsReadOneWay(field: string, s: seq<Pair>, t: seq<Pair>, x: string, y: string)
    requires EmitPairs(field, s) + x == EmitPairs(field, t) + y
    ensures multiset(s) == multiset(t) && x == y
  {
    var a, b := SortPairs(s), SortPairs(t);
    assert |multiset(a)| == |multiset(s)| && |multiset(b)| == |multiset(t)|;
    PairsSplit(field, s, x);
    PairsSplit(field, t, y);
    CancelPrefix(field, "=" + (Digits(|s|) + ("\n" + (EmitPairLines(a) + x))), "=" + (Digits(|t|) + ("\n" + (EmitPairLines(b) + y))));
    CancelPrefix("=", Digits(|s|) + ("\n" + (EmitPairLines(a) + x)), Digits(|t|) + ("\n" + (EmitPairLines(b) + y)));
    NumberReadsOneWay(|s|, |t|, "\n" + (EmitPairLines(a) + x), "\n" + (EmitPairLines(b) + y));
    CancelPrefix("\n", EmitPairLines(a) + x, EmitPairLines(b) + y);
    PairLinesReadOneWay(a, b, x, y);
  }

  lemma PairsSplit(field: string, s: seq<Pair>, x: string)
    ensures EmitPairs(field, s) + x == field + ("=" + (Digits(|s|) + ("\n" + (EmitPairLines(SortPairs(s)) + x))))
  {
    var lines := EmitPairLines(SortPairs(s));
    Rightward(field, "=" + (Digits(|s|) + ("\n" + lines)), x);
    Rightward("=", Digits(|s|) + ("\n" + lines), x);
    Rightward(Digits(|s|), "\n" + lines, x);
    Rightward("\n", lines, x);
  }

  lemma FormatLineSplits(formats: seq<U32>, index: nat, x: string)
    requires index < |formats|
    ensures EmitFormatLines(formats, index) + x ==
            "  " + (Digits(index) + ("=" + (Digits(formats[index]) + ("\n" + (EmitFormatLines(formats, index + 1) + x)))))
  {
    var rest := EmitFormatLines(formats, index + 1);
    Rightward("  ", Digits(index) + ("=" + (Digits(formats[index]) + ("\n" + rest))), x);
    Rightward(Digits(index), "=" + (Digits(formats[index]) + ("\n" + rest)), x);
    Rightward("=", Digits(formats[index]) + ("\n" + rest), x);
    Rightward(Digits(formats[index]), "\n" + rest, x);
    Rightward("\n", rest, x);
  }

  lemma {:induction false} FormatLinesReadOneWay(s: seq<U32>, t: seq<U32>, index: nat, x: string, y: string)
    requires |s| == |t| && index <= |s| && s[..index] == t[..index]
    requires EmitFormatLines(s, index) + x == EmitFormatLines(t, index) + y
    ensures s == t && x == y
    decreases |s| - index
  {
    if index < |s| {
      FormatLineSplits(s, index, x);
      FormatLineSplits(t, index, y);
      var a, b := EmitFormatLines(s, index + 1) + x, EmitFormatLines(t, index + 1) + y;
      CancelPrefix("  ", Digits(index) + ("=" + (Digits(s[index]) + ("\n" + a))), Digits(index) + ("=" + (Digits(t[index]) + ("\n" + b))));
      CancelPrefix(Digits(index), "=" + (Digits(s[index]) + ("\n" + a)), "=" + (Digits(t[index]) + ("\n" + b)));
      CancelPrefix("=", Digits(s[index]) + ("\n" + a), Digits(t[index]) + ("\n" + b));
      NumberReadsOneWay(s[index], t[index], "\n" + a, "\n" + b);
      CancelPrefix("\n", a, b);
      assert s[..index + 1] == s[..index] + [s[index]] && t[..index + 1] == t[..index] + [t[index]];
      FormatLinesReadOneWay(s, t, index + 1, x, y);
    } else {
      assert s[..index] == s && t[..index] == t;
      assert EmitFormatLines(s, index) + x == x && EmitFormatLines(t, index) + y == y;
    }
  }

  lemma FormatsReadOneWay(s: seq<U32>, t: seq<U32>, x: string, y: string)
    requires EmitFormats(s) + x == EmitFormats(t) + y
    ensures s == t && x == y
  {
    var field := "attachment_formats=";
    FormatsSplit(s, x);
    FormatsSplit(t, y);
    var a, b := EmitFormatLines(s, 0) + x, EmitFormatLines(t, 0) + y;
    CancelPrefix(field, Digits(|s|) + ("\n" + a), Digits(|t|) + ("\n" + b));
    NumberReadsOneWay(|s|, |t|, "\n" + a, "\n" + b);
    CancelPrefix("\n", a, b);
    FormatLinesReadOneWay(s, t, 0, x, y);
  }

  lemma FormatsSplit(s: seq<U32>, x: string)
    ensures EmitFormats(s) + x == "attachment_formats=" + (Digits(|s|) + ("\n" + (EmitFormatLines(s, 0) + x)))
  {
    var lines := EmitFormatLines(s, 0);
    Rightward("attachment_formats=", Digits(|s|) + ("\n" + lines), x);
    Rightward(Digits(|s|), "\n" + lines, x);
    Rightward("\n", lines, x);
  }

  lemma SampleReadsOneWay(m: U32, n: U32, x: string, y: string)
    requires ("sample_count=" + (Digits(m) + "\n")) + x == ("sample_count=" + (Digits(n) + "\n")) + y
    ensures m == n && x == y
  {
    Rightward("sample_count=", Digits(m) + "\n", x);
    Rightward("sample_count=", Digits(n) + "\n", y);
    Rightward(Digits(m), "\n", x);
    Rightward(Digits(n), "\n", y);
    CancelPrefix("sample_count=", Digits(m) + ("\n" + x), Digits(n) + ("\n" + y));
    NumberReadsOneWay(m, n, "\n" + x, "\n" + y);
    CancelPrefix("\n", x, y);
  }

  function AfterFormats(k: PipelineKey): string {
    ("sample_count=" + (Digits(k.sampleCount) + "\n"))
    + (EmitPairs("raster_state", k.rasterState)
    + EmitText("target_identity", k.targetIdentity))
  }

  /** Two keys have the same canonical text exactly when they are the same key. */
  lemma CanonicalExact(a: PipelineKey, b: PipelineKey)
    ensures Canonical(a) == Canonical(b) <==> SameKey(a, b)
  {
    if SameKey(a, b) {
      SameMultisetSameSort(a.functionConstants, b.functionConstants);
      SameMultisetSameSort(a.rasterState, b.rasterState);
    }
    if Canonical(a) == Canonical(b) {
      var formatsA, formatsB := EmitFormats(a.attachmentFormats) + AfterFormats(a), EmitFormats(b.attachmentFormats) + AfterFormats(b);
      var constantsA, constantsB := EmitPairs("function_constants", a.functionConstants) + formatsA,
                                    EmitPairs("function_constants", b.functionConstants) + formatsB;
      TextReadsOneWay("code_object_hash", a.codeObjectHash, b.codeObjectHash,
                      EmitText("entry", a.entry) + constantsA, EmitText("entry", b.entry) + constantsB);
      TextReadsOneWay("entry", a.entry, b.entry, constantsA, constantsB);
      PairsReadOneWay("function_constants", a.functionConstants, b.functionConstants, formatsA, formatsB);
      FormatsReadOneWay(a.attachmentFormats, b.attachmentFormats, AfterFormats(a), AfterFormats(b));
      SampleReadsOneWay(a.sampleCount, b.sampleCount,
                        EmitPairs("raster_state", a.rasterState) + EmitText("target_identity", a.targetIdentity),
                        EmitPairs("raster_state", b.rasterState) + EmitText("target_identity", b.targetIdentity));
      PairsReadOneWay("raster_state", a.rasterState, b.rasterState,
                      EmitText("target_identity", a.targetIdentity), EmitText("target_identity", b.targetIdentity));
      TextReadsOneWay("target_identity", a.targetIdentity, b.targetIdentity, "", "");
    }
  }

  lemma SameMultisetSameSort(s: seq<Pair>, t: seq<Pair>)
    requires multiset(s) == multiset(t)
    ensures SortPairs(s) == SortPairs(t) && |s| == |t|
  {
    SortPairsAscends(s);
    SortPairsAscends(t);
    AscendingUnique(SortPairs(s), SortPairs(t));
    assert |multiset(s)| == |multiset(t)|;
  }

  // ------------------------------------------------------------ classification

  datatype StateBlockKind = IntoKey | DynamicState | ShaderVisibleData | NeedsConversion

  datatype StateBlock = StateBlock(name: string, kind: StateBlockKind, value: U64)

  datatype Classification = Classification(
    key: PipelineKey, dynamicState: seq<StateBlock>, shaderVisible: seq<StateBlock>, unsupported: seq<StateBlock>,
    conflicts: nat)
  {
    predicate Ok() {
      unsupported == [] && conflicts == 0
    }
  }

  /** The value the first entry with this name has. */
  function Listed(s: seq<Pair>, name: string): Option<U64> {
    if s == [] then None else if s[0].name == name then Some(s[0].value) else Listed(s[1..], name)
  }

  lemma {:induction false} ListedAppend(s: seq<Pair>, p: Pair, name: string)
    ensures Listed(s + [p], name) ==
            if Listed(s, name).Some? then Listed(s, name) else if p.name == name then Some(p.value) else None
  {
    if s == [] {
      assert (s + [p])[1..] == [];
    } else {
      assert (s + [p])[1..] == s[1..] + [p];
      ListedAppend(s[1..], p, name);
    }
  }

  /** The key block of this name agrees with the base key and with every other key block of its name. */
  ghost predicate Agreed(base: PipelineKey, blocks: seq<StateBlock>) {
    && (forall b | b in blocks && b.kind.IntoKey? && Listed(base.rasterState, b.name).Some? ::
          Listed(base.rasterState, b.name) == Some(b.value))
    && (forall b, c | b in blocks && c in blocks && b.kind.IntoKey? && c.kind.IntoKey? && b.name == c.name :: b.value == c.value)
  }

  /** The names key blocks add to the base key. */
  ghost predicate Adds(base: PipelineKey, blocks: seq<StateBlock>, p: Pair) {
    Listed(base.rasterState, p.name).None? && exists b | b in blocks :: b.kind.IntoKey? && b.name == p.name && b.value == p.value
  }

  ghost predicate DistinctPairs(s: seq<Pair>) {
    forall i, j | 0 <= i < j < |s| :: s[i] != s[j]
  }

  /** The blocks seen so far agree, and what they add to the base key is listed once each. */
  ghost predicate Folded(base: PipelineKey, blocks: seq<StateBlock>, key: PipelineKey, added: seq<Pair>) {
    && key == base.(rasterState := base.rasterState + added)
    && DistinctPairs(added)
    && (forall p :: p in added <==> Adds(base, blocks, p))
    && (forall name :: Listed(key.rasterState, name) ==
          if Listed(base.rasterState, name).Some? then Listed(base.rasterState, name) else Listed(added, name))
  }

  /** The blocks of one kind, in their order. */
  function OfKind(blocks: seq<StateBlock>, kind: StateBlockKind): seq<StateBlock> {
    if blocks == [] then [] else
    var n := |blocks| - 1;
    OfKind(blocks[..n], kind) + if blocks[n].kind == kind then [blocks[n]] else []
  }

  /** Each block of the kind as often as it is given, and no other. */
  lemma {:induction false} OfKindMeaning(blocks: seq<StateBlock>, kind: StateBlockKind)
    ensures forall b :: multiset(OfKind(blocks, kind))[b] == if b.kind == kind then multiset(blocks)[b] else 0
    ensures forall b :: b in OfKind(blocks, kind) <==> b in blocks && b.kind == kind
  {
    if blocks != [] {
      var n := |blocks| - 1;
      OfKindMeaning(blocks[..n], kind);
      assert blocks == blocks[..n] + [blocks[n]];
    }
  }

  /** The blocks that stay out of the key, each kind in its own list. */
  ghost predicate SortedOut(r: Classification, blocks: seq<StateBlock>) {
    && r.dynamicState == OfKind(blocks, DynamicState)
    && r.shaderVisible == OfKind(blocks, ShaderVisibleData)
    && r.unsupported == OfKind(blocks, NeedsConversion)
  }

  /** What one more block adds to the lists. */
  function SortOut(r: Classification, b: StateBlock): Classification {
    match b.kind
    case IntoKey => r
    case DynamicState => r.(dynamicState := r.dynamicState + [b])
    case ShaderVisibleData => r.(shaderVisible := r.shaderVisible + [b])
    case NeedsConversion => r.(unsupported := r.unsupported + [b])
  }

  lemma SortedOutNext(r: Classification, blocks: seq<StateBlock>, k: nat)
    requires k < |blocks| && SortedOut(r, blocks[..k])
    ensures SortedOut(SortOut(r, blocks[k]), blocks[..k + 1])
  {
    assert blocks[..k + 1][..k] == blocks[..k];
  }

  method ClassifyPipelineState(base: PipelineKey, blocks: seq<StateBlock>) returns (r: Classification, ghost added: seq<Pair>)
    ensures r.Ok() <==> Agreed(base, blocks) && forall b | b in blocks :: !b.kind.NeedsConversion?
    ensures r.Ok() ==> Folded(base, blocks, r.key, added)
    ensures SortedOut(r, blocks)
  {
    r, added := Classification(base, [], [], [], 0), [];
    for k := 0 to |blocks|
      invariant r.conflicts == 0 <==> Agreed(base, blocks[..k])
      invariant r.conflicts == 0 ==> Folded(base, blocks[..k], r.key, added)
      invariant SortedOut(r, blocks[..k])
    {
      var b := blocks[k];
      assert blocks[..k + 1] == blocks[..k] + [b];
      SortedOutNext(r, blocks, k);
      if b.kind.IntoKey? {
        r, added := FoldBlock(base, blocks[..k], r, added, b);
      } else {
        OtherNext(base, blocks[..k], b);
        FoldedStays(base, blocks[..k], b, r.key, added);
        r := SortOut(r, b);
      }
    }
    assert blocks[..|blocks|] == blocks;
    NoneUnsupported(r, blocks);
  }

  lemma NoneUnsupported(r: Classification, blocks: seq<StateBlock>)
    requires SortedOut(r, blocks)
    ensures r.unsupported == [] <==> forall b | b in blocks :: !b.kind.NeedsConversion?
  {
    OfKindMeaning(blocks, NeedsConversion);
    if r.unsupported != [] {
      assert r.unsupported[0] in r.unsupported;
    }
  }

  /** Folds one block into the key, or counts a conflict. */
  method FoldBlock(base: PipelineKey, ghost blocks: seq<StateBlock>, r: Classification, ghost added: seq<Pair>, b: StateBlock)
    returns (r': Classification, ghost added': seq<Pair>)
    requires b.kind.IntoKey? && (r.conflicts == 0 <==> Agreed(base, blocks))
    requires r.conflicts == 0 ==> Folded(base, blocks, r.key, added)
    ensures r'.(key := r.key, conflicts := r.conflicts) == r
    ensures r'.conflicts == 0 <==> Agreed(base, blocks + [b])
    ensures r'.conflicts == 0 ==> Folded(base, blocks + [b], r'.key, added')
  {
    r', added' := r, added;
    var listed := Listed(r.key.rasterState, b.name);
    FoldNext(base, blocks, r.key, added, b, r.conflicts == 0);
    if listed.None? {
      r' := r.(key := r.key.(rasterState := r.key.rasterState + [Pair(b.name, b.value)]));
      added' := added + [Pair(b.name, b.value)];
    } else if listed.value != b.value {
      r' := r.(conflicts := r.conflicts + 1);
    }
  }

  lemma FoldedStays(base: PipelineKey, blocks: seq<StateBlock>, b: StateBlock, key: PipelineKey, added: seq<Pair>)
    requires !b.kind.IntoKey?
    ensures Folded(base, blocks, key, added) ==> Folded(base, blocks + [b], key, added)
  {
    OtherNext(base, blocks, b);
  }

  lemma OtherNext(base: PipelineKey, blocks: seq<StateBlock>, b: StateBlock)
    requires !b.kind.IntoKey?
    ensures Agreed(base, blocks + [b]) <==> Agreed(base, blocks)
    ensures forall p :: Adds(base, blocks + [b], p) <==> Adds(base, blocks, p)
  {
    forall p ensures Adds(base, blocks + [b], p) <==> Adds(base, blocks, p) {
      assert forall c | c in blocks :: c in blocks + [b];
    }
  }

  /** A key block that is new to the key, repeats what it has, or disagrees with it. */
  lemma FoldNext(base: PipelineKey, blocks: seq<StateBlock>, key: PipelineKey, added: seq<Pair>, b: StateBlock, agreed: bool)
    requires b.kind.IntoKey? && (agreed <==> Agreed(base, blocks)) && (agreed ==> Folded(base, blocks, key, added))
    ensures !agreed ==> !Agreed(base, blocks + [b])
    ensures var listed := Listed(key.rasterState, b.name);
            agreed ==>
              && (Agreed(base, blocks + [b]) <==> listed.None? || listed.value == b.value)
              && (listed.None? ==> Folded(base, blocks + [b], key.(rasterState := key.rasterState + [Pair(b.name, b.value)]),
                                          added + [Pair(b.name, b.value)]))
              && (listed == Some(b.value) ==> Folded(base, blocks + [b], key, added))
  {
    var p := Pair(b.name, b.value);
    var longer := blocks + [b];
    assert forall c | c in blocks :: c in longer;
    if agreed {
      if Listed(base.rasterState, b.name).None? {
        ListedAdded(base, blocks, key, added, b.name);
        forall c | c in blocks && c.kind.IntoKey? && c.name == b.name ensures Listed(added, b.name) == Some(c.value) {
          assert Adds(base, blocks, Pair(b.name, c.value));
        }
        if Listed(added, b.name).Some? {
          assert Adds(base, blocks, Pair(b.name, Listed(added, b.name).value));
        }
      }
      if Listed(key.rasterState, b.name).None? {
        NewName(base, blocks, key, added, b);
      }
      assert b in longer;
      forall q: Pair | Adds(base, longer, q) && !Adds(base, blocks, q) ensures q == p {}
      if Listed(key.rasterState, b.name) == Some(b.value) && Listed(base.rasterState, b.name).None? {
        assert Adds(base, blocks, p);
      }
    }
  }

  /** What is listed under an added name is what the blocks say. */
  lemma ListedAdded(base: PipelineKey, blocks: seq<StateBlock>, key: PipelineKey, added: seq<Pair>, name: string)
    requires Agreed(base, blocks) && Folded(base, blocks, key, added) && Listed(base.rasterState, name).None?
    ensures forall value: U64 :: Listed(added, name) == Some(value) <==> Adds(base, blocks, Pair(name, value))
  {
    ListedMember(added, name);
    forall value: U64 ensures Listed(added, name) == Some(value) <==> Adds(base, blocks, Pair(name, value)) {
      if Adds(base, blocks, Pair(name, value)) {
        assert Pair(name, value) in added;
      }
    }
  }

  lemma {:induction false} ListedMember(s: seq<Pair>, name: string)
    ensures Listed(s, name).Some? ==> Pair(name, Listed(s, name).value) in s
    ensures Listed(s, name).None? ==> forall p | p in s :: p.name != name
  {
    if s != [] {
      ListedMember(s[1..], name);
      assert s == [s[0]] + s[1..];
      assert s[0] == Pair(s[0].name, s[0].value);
    }
  }

  lemma NewName(base: PipelineKey, blocks: seq<StateBlock>, key: PipelineKey, added: seq<Pair>, b: StateBlock)
    requires b.kind.IntoKey? && Agreed(base, blocks) && Folded(base, blocks, key, added)
    requires Listed(key.rasterState, b.name).None?
    ensures var p := Pair(b.name, b.value);
            Folded(base, blocks + [b], key.(rasterState := key.rasterState + [p]), added + [p])
  {
    var p := Pair(b.name, b.value);
    var longer := blocks + [b];
    ListedMember(added, b.name);
    assert (base.rasterState + added) + [p] == base.rasterState + (added + [p]);
    assert b in longer && forall c | c in blocks :: c in longer;
    assert p !in added;
    forall q: Pair ensures q in added + [p] <==> Adds(base, longer, q) {
      assert q in added <==> Adds(base, blocks, q);
    }
    forall name ensures Listed(key.rasterState + [p], name) ==
      if Listed(base.rasterState, name).Some? then Listed(base.rasterState, name) else Listed(added + [p], name)
    {
      ListedAppend(key.rasterState, p, name);
      ListedAppend(added, p, name);
    }
  }

  /** Listing the same blocks in another order is accepted alike and gives a key with the same canonical text. */
  lemma ClassificationIgnoresOrder(
    base: PipelineKey, blocks: seq<StateBlock>, other: seq<StateBlock>, key: PipelineKey, otherKey: PipelineKey,
    added: seq<Pair>, otherAdded: seq<Pair>)
    requires forall b :: b in blocks <==> b in other
    requires Folded(base, blocks, key, added) && Folded(base, other, otherKey, otherAdded)
    ensures Agreed(base, blocks) <==> Agreed(base, other)
    ensures Canonical(key) == Canonical(otherKey)
  {
    forall p ensures p in added <==> p in otherAdded {
      assert Adds(base, blocks, p) <==> Adds(base, other, p);
    }
    SameMembersSameMultiset(added, otherAdded);
    assert multiset(base.rasterState + added) == multiset(base.rasterState + otherAdded);
    CanonicalExact(key, otherKey);
  }

  lemma SameMembersSameMultiset(a: seq<Pair>, b: seq<Pair>)
    requires DistinctPairs(a) && DistinctPairs(b) && forall p :: p in a <==> p in b
    ensures multiset(a) == multiset(b)
  {
    forall p: Pair ensures multiset(a)[p] == multiset(b)[p] {
      CountDistinct(a, p);
      CountDistinct(b, p);
    }
  }

  lemma {:induction false} CountDistinct(a: seq<Pair>, p: Pair)
    requires DistinctPairs(a)
    ensures multiset(a)[p] == if p in a then 1 else 0
  {
    if a != [] {
      CountDistinct(a[1..], p);
      assert a == [a[0]] + a[1..];
    }
  }

  // ------------------------------------------------------------ the cache

  datatype CacheEntry = CacheEntry(canonical: string, binarySize: U64)

  /** What the caller hands in to compile a missing pipeline, and what it would answer. */
  datatype Callback = Missing | Fails | Creates(binarySize: U64)

  datatype Report = Report(cacheKey: U64, hit: bool, binarySize: U64)

  /** A cache indexed by a digest, whatever the digest function is. */
  class PipelineClassificationCache {
    const digest: string -> U64
    var entries: map<U64, CacheEntry>
    var reports: seq<Report>
    var hits: nat
    var misses: nat

    constructor (digest: string -> U64)
      ensures this.digest == digest && entries == map[] && reports == [] && hits == 0 && misses == 0 && Valid()
    {
      this.digest := digest;
      entries, reports, hits, misses := map[], [], 0, 0;
    }

    /** Every entry is filed under the digest of its own text. */
    ghost predicate Valid()
      reads this
    {
      forall d | d in entries :: digest(entries[d].canonical) == d
    }

    /** A pipeline created for this canonical text is cached. */
    ghost predicate Holds(text: string)
      reads this
    {
      digest(text) in entries && entries[digest(text)].canonical == text
    }

    /** Looks a text up under its digest, and on a miss asks the callback.  A miss is counted only if there is one. */
    method AcquireText(text: string, callback: Callback) returns (report: Option<Report>)
      requires Valid()
      modifies this
      ensures Valid()
      ensures old(Holds(text)) ==>
                && report == Some(Report(digest(text), true, old(entries)[digest(text)].binarySize)) && entries == old(entries)
                && hits == old(hits) + 1 && misses == old(misses)
      ensures digest(text) in old(entries) && !old(Holds(text)) ==>
                report == None && entries == old(entries) && hits == old(hits) && misses == old(misses)
      ensures digest(text) !in old(entries) ==>
                hits == old(hits) && misses == old(misses) + if callback.Missing? then 0 else 1
      ensures digest(text) !in old(entries) && !callback.Creates? ==> report == None && entries == old(entries)
      ensures digest(text) !in old(entries) && callback.Creates? ==>
                && report == Some(Report(digest(text), false, callback.binarySize)) && Holds(text)
                && entries == old(entries)[digest(text) := CacheEntry(text, callback.binarySize)]
      ensures reports == old(reports) + if report.Some? then [report.value] else []
    {
      var d := digest(text);
      if d in entries {
        if entries[d].canonical != text {
          return None;
        }
        hits := hits + 1;
        report := Some(Report(d, true, entries[d].binarySize));
        reports := reports + [report.value];
        return;
      }
      if callback.Missing? {
        return None;
      }
      misses := misses + 1;
      if callback.Fails? {
        return None;
      }
      entries := entries[d := CacheEntry(text, callback.binarySize)];
      report := Some(Report(d, false, callback.binarySize));
      reports := reports + [report.value];
    }

    /** Serves a pipeline only for the key it was created for: every report is of an entry that holds this key's own
        text.  A different key of equal digest is refused and a missing one is created. */
    method Acquire(key: PipelineKey, callback: Callback) returns (report: Option<Report>, ghost text: string)
      requires Valid()
      modifies this
      ensures Valid() && text == Canonical(key)
      ensures report.Some? <==> old(Holds(text)) || (digest(text) !in old(entries) && callback.Creates?)
      ensures report.Some? ==> Holds(text) && (report.value.hit <==> old(Holds(text)))
      ensures forall other | old(Holds(other)) :: Holds(other) && entries[digest(other)] == old(entries)[digest(other)]
      ensures hits == old(hits) + if old(Holds(text)) then 1 else 0
      ensures misses == old(misses) + if digest(text) in old(entries) || callback.Missing? then 0 else 1
    {
      var canonical := Canonical(key);
      text := canonical;
      report := AcquireText(canonical, callback);
    }
  }

  /** Two keys are served by one cached pipeline exactly when they are the same key, up to the order of their lists,
      whatever the digest function. */
  lemma ServedTogetherExactly(a: PipelineKey, b: PipelineKey, digest: string -> U64, entries: map<U64, CacheEntry>)
    requires digest(Canonical(a)) in entries && entries[digest(Canonical(a))].canonical == Canonical(a)
    requires digest(Canonical(b)) in entries && entries[digest(Canonical(b))].canonical == Canonical(b)
    ensures digest(Canonical(a)) == digest(Canonical(b)) <==> SameKey(a, b)
  {
    CanonicalExact(a, b);
  }
}
