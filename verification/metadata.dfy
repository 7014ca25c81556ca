/**
 The metadata parser of lib/pdftools.js: `parse`, `formatKey` and `formatValue`.
 The tool's text report is split into lines on `\n`; each line is split on
 the pattern `:\s+`, and its first two segments become a key and a value; the
 key is lower-cased with its white space removed, `1(10r)` is renamed to
 `dimensions` when the trimmed value is bracketed, and the value is coerced
 by key. A line reaches the record only when both the final key and the final
 value are truthy in JavaScript's sense.
 */
module Metadata {
  import opened Wrappers
  import opened JsText
  import opened JsNumber

  /** A field value of the parsed record. */
  datatype Value =
    | Int(n: int)                   // the page count, as `parseInt` returns it
    | Strings(items: seq<string>)   // the page-box coordinates

  /** The parsed record: normalized key to value. */
  type Record = map<string, Value>

  /** What `formatValue` returns, as a JavaScript value. */
  datatype Formatted = Null | NaN | Number(n: int) | Array(items: seq<string>)

  /** JavaScript truthiness of a formatted value: `null`, `NaN` and `0` are
      falsy, every array is truthy. */
  predicate Truthy(f: Formatted) {
    f.Array? || (f.Number? && f.n != 0)
  }

  /** The record value a truthy formatted value is stored as. */
  function ToValue(f: Formatted): Value
    requires Truthy(f)
  {
    if f.Array? then Strings(f.items) else Int(f.n)
  }

  const RawDimensionsKey: string := "1(10r)"
  const DimensionsKey: string := "dimensions"
  const PagesKey: string := "pages"

  // ---------------------------------------------------------------------------
  // line.split(/:\s+/)
  // ---------------------------------------------------------------------------

  /** The separator `:\s+` starts at index `i` of `s`. */
  predicate SepAt(s: string, i: int) {
    0 <= i && i + 1 < |s| && s[i] == ':' && IsWhitespace(s[i + 1])
  }

  predicate NoSep(s: string) {
    forall i :: 0 <= i < |s| ==> !SepAt(s, i)
  }

  /** The first index at or after `from` where a separator starts. */
  function FindSep(s: string, from: nat): (r: Option<nat>)
    requires from <= |s|
    ensures r.Some? ==> from <= r.value && SepAt(s, r.value)
    ensures r.Some? ==> forall i :: from <= i < r.value ==> !SepAt(s, i)
    ensures r.None? ==> forall i :: from <= i ==> !SepAt(s, i)
    decreases |s| - from
  {
    if from + 1 >= |s| then None
    else if SepAt(s, from) then Some(from)
    else FindSep(s, from + 1)
  }

  /** The end of the white-space run starting at `i`: the greedy `\s+`. */
  function SkipWhitespace(s: string, i: nat): (j: nat)
    requires i <= |s|
    ensures i <= j <= |s| && AllWhitespace(s[i..j])
    ensures j == |s| || !IsWhitespace(s[j])
    decreases |s| - i
  {
    if i < |s| && IsWhitespace(s[i]) then
      var j := SkipWhitespace(s, i + 1);
      assert s[i..j] == [s[i]] + s[i + 1..j];
      j
    else i
  }

  /** The segments of `s[from..]` between separators, in order. */
  function SplitFrom(s: string, from: nat): (parts: seq<string>)
    requires from <= |s|
    ensures |parts| >= 1
    decreases |s| - from
  {
    match FindSep(s, from)
    case None => [s[from..]]
    case Some(q) => [s[from..q]] + SplitFrom(s, SkipWhitespace(s, q + 1))
  }

  /** `s.split(/:\s+/)`. */
  function SplitOnSep(s: string): (parts: seq<string>)
    ensures |parts| >= 1
  {
    SplitFrom(s, 0)
  }

  /** Segments 0 and 1 of `line.split(/:\s+/)`, when there is a segment 1;
      later segments are ignored. */
  function KeyValue(line: string): Option<(string, string)> {
    var parts := SplitOnSep(line);
    if |parts| >= 2 then Some((parts[0], parts[1])) else None
  }

  /** `line` is `k`, a colon, a white-space run `w`, `v`, and `rest`, where `k`
      and `v` hold no separator, `w` is the whole run, and `rest` is empty or
      starts the next separator. */
  predicate Framed(line: string, k: string, w: string, v: string, rest: string) {
    && line == k + [':'] + w + v + rest
    && |w| >= 1 && AllWhitespace(w)
    && NoSep(k) && NoSep(v)
    && (v == [] || !IsWhitespace(v[0]))
    && (rest == [] || SepAt(rest, 0))
  }

  ghost predicate IsKeyValueOf(line: string, k: string, v: string) {
    exists w, rest :: Framed(line, k, w, v, rest)
  }

  /** `FindSep` is pinned by its contract. */
  lemma FindSepIs(s: string, from: nat, q: nat)
    requires from <= q && SepAt(s, q)
    requires forall i :: from <= i < q ==> !SepAt(s, i)
    ensures FindSep(s, from) == Some(q)
  {
  }

  lemma FindSepNone(s: string, from: nat)
    requires from <= |s|
    requires forall i :: from <= i < |s| ==> !SepAt(s, i)
    ensures FindSep(s, from) == None
  {
  }

  /** `SkipWhitespace` is pinned by its contract. */
  lemma SkipWhitespaceIs(s: string, i: nat, j: nat)
    requires i <= j <= |s| && AllWhitespace(s[i..j])
    requires j == |s| || !IsWhitespace(s[j])
    ensures SkipWhitespace(s, i) == j
  {
  }

  /** A segment between `from` and a separator (or the end) holds no separator. */
  lemma SegmentNoSep(s: string, from: nat, to: nat)
    requires from <= to <= |s|
    requires forall i :: from <= i < to ==> !SepAt(s, i)
    requires to == |s| || SepAt(s, to)
    ensures NoSep(s[from..to])
  {
    forall i | SepAt(s[from..to], i)
      ensures false
    {
      assert SepAt(s, from + i);
    }
  }

  /** A line without a separator has no segment 1. */
  lemma KeyValueNone(line: string)
    ensures KeyValue(line).None? <==> NoSep(line)
  {
    if !NoSep(line) {
      var i :| SepAt(line, i);
      assert FindSep(line, 0).Some?;
    }
  }

  /** A separator-free key followed by `:` and a white-space character is
      segment 0 of the line, whatever comes after. */
  lemma KeySegment(key: string, w: char, val: string)
    requires NoSep(key) && IsWhitespace(w)
    ensures KeyValue(key + [':', w] + val).Some?
    ensures KeyValue(key + [':', w] + val).value.0 == key
  {
    var line := key + [':', w] + val;
    var q := |key|;
    assert line[..q] == line[0..q] == key;
    assert SepAt(line, q) by {
      assert line[q] == ':' && line[q + 1] == w;
    }
    forall i | 0 <= i < q
      ensures !SepAt(line, i)
    {
      if i + 1 < q {
        assert !SepAt(key, i);
      }
    }
    FindSepIs(line, 0, q);
  }

  /** Splitting finds the frame of a line: key, separator run, value and the
      rest of the line. */
  lemma KeyValueFramed(line: string)
    requires KeyValue(line).Some?
    ensures IsKeyValueOf(line, KeyValue(line).value.0, KeyValue(line).value.1)
  {
    var q := FindSep(line, 0).value;
    var j := SkipWhitespace(line, q + 1);
    var e := match FindSep(line, j) case None => |line| case Some(q2) => q2;
    var k, w, v, rest := line[..q], line[q + 1..j], line[j..e], line[e..];
    assert KeyValue(line) == Some((k, v)) by {
      assert line[0..q] == k;
      assert SplitFrom(line, j)[0] == v;
    }
    assert line == k + [':'] + w + v + rest by {
      assert line == line[..q] + [line[q]] + line[q + 1..j] + line[j..e] + line[e..];
    }
    SegmentNoSep(line, 0, q);
    SegmentNoSep(line, j, e);
    FrameEnds(line, j, e);
    assert Framed(line, k, w, v, rest);
  }

  /** The value segment starts after the white-space run, and what follows it
      is empty or the next separator. */
  lemma FrameEnds(line: string, j: nat, e: nat)
    requires j <= e <= |line|
    requires j == |line| || !IsWhitespace(line[j])
    requires e == |line| || SepAt(line, e)
    ensures line[j..e] == [] || !IsWhitespace(line[j..e][0])
    ensures line[e..] == [] || SepAt(line[e..], 0)
  {
    if e < |line| {
      assert line[e..][0] == line[e] && line[e..][1] == line[e + 1];
    }
  }

  /** A framed line splits into exactly that key and value. */
  lemma FramedKeyValue(line: string, k: string, w: string, v: string, rest: string)
    requires Framed(line, k, w, v, rest)
    ensures KeyValue(line) == Some((k, v))
  {
    var q := |k|;
    var j := q + 1 + |w|;
    FramedSlices(line, k, w, v, rest);
    FramedFirstSep(line, k, w, v, rest);
    FramedRun(line, k, w, v, rest);
    FramedValue(line, k, w, v, rest);
    assert SplitFrom(line, 0) == [line[0..q]] + SplitFrom(line, j);
  }

  /** The pieces of a framed line, as slices of it. */
  lemma FramedSlices(line: string, k: string, w: string, v: string, rest: string)
    requires Framed(line, k, w, v, rest)
    ensures var q := |k|; var j := q + 1 + |w|; var e := j + |v|;
      && e + |rest| == |line|
      && line[..q] == line[0..q] == k && line[q] == ':' && line[q + 1..j] == w
      && line[j..e] == v && line[e..] == rest
  {
  }

  /** The first separator of a framed line is the colon after the key. */
  lemma FramedFirstSep(line: string, k: string, w: string, v: string, rest: string)
    requires Framed(line, k, w, v, rest)
    ensures FindSep(line, 0) == Some(|k|)
  {
    var q := |k|;
    FramedSlices(line, k, w, v, rest);
    assert SepAt(line, q) by {
      assert line[q + 1] == w[0];
    }
    forall i | 0 <= i < q
      ensures !SepAt(line, i)
    {
      if i + 1 < q {
        assert !SepAt(k, i);
      }
    }
    FindSepIs(line, 0, q);
  }

  /** The white-space run after the colon ends where the value starts. */
  lemma FramedRun(line: string, k: string, w: string, v: string, rest: string)
    requires Framed(line, k, w, v, rest)
    ensures SkipWhitespace(line, |k| + 1) == |k| + 1 + |w|
  {
    var q := |k|;
    var j := q + 1 + |w|;
    FramedSlices(line, k, w, v, rest);
    assert j == |line| || !IsWhitespace(line[j]) by {
      if j < |line| {
        if v != [] {
          assert line[j] == v[0];
        } else {
          assert line[j] == rest[0];
        }
      }
    }
    SkipWhitespaceIs(line, q + 1, j);
  }

  /** Segment 1 of a framed line runs from the end of the white-space run to
      the next separator or to the end: it is the value. */
  lemma FramedValue(line: string, k: string, w: string, v: string, rest: string)
    requires Framed(line, k, w, v, rest)
    ensures SplitFrom(line, |k| + 1 + |w|)[0] == v
  {
    var j := |k| + 1 + |w|;
    var e := j + |v|;
    FramedSlices(line, k, w, v, rest);
    forall i | j <= i < e
      ensures !SepAt(line, i)
    {
      if i + 1 < e {
        assert !SepAt(v, i - j);
      } else if rest != [] {
        assert line[i + 1] == rest[0];
      }
    }
    if rest == [] {
      FindSepNone(line, j);
    } else {
      assert SepAt(line, e) by {
        assert line[e] == rest[0] && line[e + 1] == rest[1];
      }
      FindSepIs(line, j, e);
    }
  }

  /** Segment 0 and segment 1 of a split are exactly the key and value of a
      frame of the line. */
  lemma KeyValueIff(line: string, k: string, v: string)
    ensures KeyValue(line) == Some((k, v)) <==> IsKeyValueOf(line, k, v)
  {
    if KeyValue(line) == Some((k, v)) {
      KeyValueFramed(line);
    }
    if IsKeyValueOf(line, k, v) {
      var w, rest :| Framed(line, k, w, v, rest);
      FramedKeyValue(line, k, w, v, rest);
    }
  }

  // ---------------------------------------------------------------------------
  // formatKey
  // ---------------------------------------------------------------------------

  /** The first step of `formatKey`: `key.toLowerCase().replace(/\s/g, '')`. */
  function NormalizeKey(key: string): (r: string)
    ensures HasNoWhitespace(r) && HasNoUpper(r)
    ensures |r| <= |key|
  {
    ToLowerShape(key);
    RemoveWhitespaceKeeps(ToLower(key));
    var r := RemoveWhitespace(ToLower(key));
    assert forall i :: 0 <= i < |r| ==> r[i] in ToLower(key);
    r
  }

  /** Normalizing a normalized key changes nothing. */
  lemma NormalizeKeyIdempotent(key: string)
    ensures NormalizeKey(NormalizeKey(key)) == NormalizeKey(key)
  {
    var r := NormalizeKey(key);
    ToLowerFixed(r);
    RemoveWhitespaceFixed(r);
  }

  /** Normalization works character by character: it distributes over
      concatenation, drops each white-space character and lower-cases
      each other one. */
  lemma NormalizeKeyAppend(a: string, b: string)
    ensures NormalizeKey(a + b) == NormalizeKey(a) + NormalizeKey(b)
  {
    assert ToLower(a + b) == ToLower(a) + ToLower(b);
    RemoveWhitespaceAppend(ToLower(a), ToLower(b));
  }

  lemma NormalizeKeyChar(c: char)
    ensures NormalizeKey([c]) == if IsWhitespace(c) then [] else [LowerChar(c)]
  {
    assert ToLower([c]) == [LowerChar(c)];
    assert IsWhitespace(LowerChar(c)) == IsWhitespace(c);
  }

  /** The trimmed value starts with `[` and ends with `]`, as
      `value.slice(0, 1) === '['` and `value.slice(-1) === ']'` test it. */
  predicate IsBracketed(t: string) {
    |t| >= 2 && t[0] == '[' && t[|t| - 1] == ']'
  }

  /** `formatKey(key, value)`. */
  function FormatKey(key: string, value: string): string {
    var formatted := NormalizeKey(key);
    var v := Trim(value);
    if formatted == RawDimensionsKey && Slice(v, 0, 1) == "[" && Slice(v, -1, |v|) == "]"
    then DimensionsKey
    else formatted
  }

  /** The only rename: `1(10r)` becomes `dimensions` exactly when the trimmed
      value is bracketed; every other key keeps its normalized form. */
  lemma FormatKeyRename(key: string, value: string)
    ensures FormatKey(key, value) != NormalizeKey(key)
        <==> NormalizeKey(key) == RawDimensionsKey && IsBracketed(Trim(value))
    ensures FormatKey(key, value) == NormalizeKey(key) || FormatKey(key, value) == DimensionsKey
  {
    var v := Trim(value);
    SliceFirst(v);
    SliceLast(v);
  }

  // ---------------------------------------------------------------------------
  // formatValue
  // ---------------------------------------------------------------------------

  /** `formatValue(key, value)`: the `dimensions` and `pages` coercions, and
      `null` for every other key. */
  function FormatValue(key: string, value: string): (r: Formatted)
    ensures key == DimensionsKey <==> r.Array?
    ensures key == PagesKey <==> r.NaN? || r.Number?
    ensures r.Null? <==> key != DimensionsKey && key != PagesKey
  {
    if key == DimensionsKey then
      var f := RemoveChar(value, '\r');
      Array(Split(Trim(Slice(f, 1, |f| - 1)), ' '))
    else if key == PagesKey then
      match ParseInt(RemoveChar(value, '\r'))
      case None => NaN
      case Some(n) => Number(n)
    else Null
  }

  /** Carriage returns in a value make no difference to its coercion. */
  lemma FormatValueIgnoresCR(key: string, value: string)
    ensures FormatValue(key, value) == FormatValue(key, RemoveChar(value, '\r'))
  {
    RemoveCharFixed(RemoveChar(value, '\r'), '\r');
  }

  /** A string whose ends are not white space is its own trim. */
  lemma TrimFixed(s: string)
    requires s == [] || (!IsWhitespace(s[0]) && !IsWhitespace(s[|s| - 1]))
    ensures Trim(s) == s
  {
    assert s[..0] == [] && s[|s|..] == [];
    assert TrimFrame(s, s, 0, |s|);
    TrimUnique(s, s);
  }

  /** Coordinates written as the tool writes a page box, `[` then the
      coordinates separated by single spaces then `]`, come back unchanged. */
  lemma DimensionsRoundTrip(parts: seq<string>)
    requires |parts| >= 1
    requires forall k :: 0 <= k < |parts| ==> |parts[k]| >= 1 && HasNoWhitespace(parts[k]) && '\r' !in parts[k]
    ensures FormatValue(DimensionsKey, "[" + Join(parts, ' ') + "]") == Array(parts)
  {
    var inner := Join(parts, ' ');
    var value := "[" + inner + "]";
    assert '\r' !in value && value[1..|value| - 1] == inner by {
      JoinShape(parts);
    }
    InnerCoordinates(value);
    assert Trim(inner) == inner by {
      JoinShape(parts);
      TrimFixed(inner);
    }
    assert Split(inner, ' ') == parts by {
      forall k | 0 <= k < |parts|
        ensures ' ' !in parts[k]
      {
      }
      SplitJoin(parts, ' ');
    }
  }

  /** A value without carriage returns is coerced to the space-separated
      pieces of what lies between its first and last characters, trimmed; a
      value of fewer than two characters has nothing between them and gives
      one empty piece. */
  lemma InnerCoordinates(value: string)
    requires '\r' !in value
    ensures FormatValue(DimensionsKey, value)
      == Array(Split(Trim(if |value| < 2 then [] else value[1..|value| - 1]), ' '))
  {
    RemoveCharFixed(value, '\r');
    SliceInner(value);
  }

  /** Joining non-empty, white-space-free pieces with spaces gives a string
      without carriage returns whose ends are not white space. */
  lemma {:induction false} JoinShape(parts: seq<string>)
    requires |parts| >= 1
    requires forall k :: 0 <= k < |parts| ==> |parts[k]| >= 1 && HasNoWhitespace(parts[k]) && '\r' !in parts[k]
    ensures var s := Join(parts, ' ');
      && |s| >= 1 && '\r' !in s && !IsWhitespace(s[0]) && !IsWhitespace(s[|s| - 1])
  {
    if |parts| > 1 {
      JoinShape(parts[1..]);
      var s := Join(parts, ' ');
      var t := Join(parts[1..], ' ');
      assert s == parts[0] + [' '] + t;
      assert s[0] == parts[0][0];
      assert s[|s| - 1] == t[|t| - 1];
    }
  }

  /** Only the trimmed value is checked for brackets, but the untrimmed value
      is sliced: a space after the closing bracket makes the slice keep the
      `]` on the last coordinate, as in `[0 612] `. */
  lemma DimensionsTrailingSpace(x: string, y: string)
    requires |x| >= 1 && HasNoWhitespace(x) && '\r' !in x
    requires HasNoWhitespace(y) && '\r' !in y
    ensures FormatValue(DimensionsKey, "[" + x + " " + y + "] ") == Array([x, y + "]"])
  {
    var value := "[" + x + " " + y + "] ";
    var inner := x + [' '] + (y + "]");
    assert '\r' !in value && value[1..|value| - 1] == inner;
    InnerCoordinates(value);
    assert Trim(inner) == inner by {
      assert inner[0] == x[0] && inner[|inner| - 1] == ']';
      TrimFixed(inner);
    }
    SplitTwo(x, y + "]");
  }

  /** Two pieces without spaces, joined by one space, split back apart. */
  lemma SplitTwo(a: string, b: string)
    requires HasNoWhitespace(a) && ' ' !in b
    ensures Split(a + [' '] + b, ' ') == [a, b]
  {
    assert ' ' !in a by {
      assert IsWhitespace(' ');
    }
    SplitAppendSeparator(a, b, ' ');
    SplitNoSeparator(b, ' ');
  }

  // ---------------------------------------------------------------------------
  // parse
  // ---------------------------------------------------------------------------

  /** The entry a key segment and a value segment contribute, if any: both
      must be non-empty, and then both the formatted key and the formatted
      value must be truthy. */
  function EntryOf(key: string, val: string): (r: Option<(string, Value)>)
    ensures r.Some? ==> WellShaped(r.value.0, r.value.1)
  {
    if key == [] || val == [] then None
    else
      var k := FormatKey(key, val);
      var f := FormatValue(k, val);
      if k != [] && Truthy(f) then Some((k, ToValue(f))) else None
  }

  /** The entry one line of the report contributes, if any. */
  function ParseLine(line: string): (r: Option<(string, Value)>)
    ensures r.Some? ==> WellShaped(r.value.0, r.value.1)
  {
    match KeyValue(line)
    case None => None
    case Some((key, val)) => EntryOf(key, val)
  }

  /** A line written as `key: value`, with any white-space run after the
      colon, contributes the entry of that key and value. */
  lemma WrittenLine(key: string, w: string, val: string)
    requires NoSep(key) && NoSep(val)
    requires |w| >= 1 && AllWhitespace(w)
    requires val == [] || !IsWhitespace(val[0])
    ensures ParseLine(key + [':'] + w + val) == EntryOf(key, val)
  {
    var line := key + [':'] + w + val;
    assert line == key + [':'] + w + val + [];
    FramedKeyValue(line, key, w, val, []);
  }

  /** A line whose key becomes `dimensions` always lands in the record, as
      the array of coordinates: an array is truthy. */
  lemma DimensionsEntry(key: string, val: string)
    requires key != [] && val != []
    requires FormatKey(key, val) == DimensionsKey
    ensures EntryOf(key, val) == Some((DimensionsKey, Strings(FormatValue(DimensionsKey, val).items)))
  {
  }

  /** A `pages` line lands in the record exactly when `parseInt` reads a
      non-zero number from its value; `0` and `NaN` are dropped. */
  lemma PagesEntryOf(key: string, val: string)
    requires key != [] && val != []
    requires NormalizeKey(key) == PagesKey
    ensures var p := ParseInt(RemoveChar(val, '\r'));
      EntryOf(key, val) == if p.Some? && p.value != 0 then Some((PagesKey, Int(p.value))) else None
  {
    FormatKeyRename(key, val);
  }

  /** Every key other than `dimensions` and `pages` is dropped, as is every
      line with an empty key or value segment. */
  lemma EntryDropped(key: string, val: string)
    requires key == [] || val == [] || FormatKey(key, val) !in {DimensionsKey, PagesKey}
    ensures EntryOf(key, val) == None
  {
  }

  /** What one line contributes: a key and its value, or nothing. */
  type Entry = Option<(string, Value)>

  /** The entry `meta[key] = val` stores, when there is one. */
  predicate StoresAs(e: Entry, k: string) {
    e.Some? && e.value.0 == k
  }

  /** Entries written into a record in order, a later entry for a key
      overwriting an earlier one. */
  function Store(entries: seq<Entry>): (m: Record)
  {
    if |entries| == 0 then map[]
    else
      var m := Store(entries[..|entries| - 1]);
      match entries[|entries| - 1]
      case None => m
      case Some((k, v)) => m[k := v]
  }

  /** Entry `i` is the last one for key `k`. */
  predicate LastFor(entries: seq<Entry>, k: string, i: int) {
    && 0 <= i < |entries| && StoresAs(entries[i], k)
    && forall j :: i < j < |entries| ==> !StoresAs(entries[j], k)
  }

  /** Last write wins: a key is stored exactly when some entry has it, and
      its value is the one the last such entry gives. */
  lemma {:induction false} StoreLastWins(entries: seq<Entry>, k: string)
    ensures k in Store(entries) <==> exists i :: 0 <= i < |entries| && StoresAs(entries[i], k)
    ensures k in Store(entries) ==>
      exists i :: LastFor(entries, k, i) && Store(entries)[k] == entries[i].value.1
  {
    if |entries| > 0 {
      var n := |entries| - 1;
      var init := entries[..n];
      StoreLastWins(init, k);
      if StoresAs(entries[n], k) {
        assert LastFor(entries, k, n);
      } else {
        assert Store(entries) == Store(init) || k != entries[n].value.0;
        if exists i :: 0 <= i < |entries| && StoresAs(entries[i], k) {
          var i :| 0 <= i < |entries| && StoresAs(entries[i], k);
          assert init[i] == entries[i];
        }
        if k in Store(entries) {
          var i :| LastFor(init, k, i) && Store(init)[k] == init[i].value.1;
          assert init[i] == entries[i];
          assert LastFor(entries, k, i);
        }
      }
    }
  }

  /** An entry is well-shaped when it is a `dimensions` array or a non-zero
      `pages` number. */
  predicate WellShaped(k: string, v: Value) {
    || (k == DimensionsKey && v.Strings?)
    || (k == PagesKey && v.Int? && v.n != 0)
  }

  /** When every entry is well-shaped, so is every stored pair. */
  lemma StoredShape(entries: seq<Entry>)
    requires forall i :: 0 <= i < |entries| && entries[i].Some? ==>
      WellShaped(entries[i].value.0, entries[i].value.1)
    ensures forall k :: k in Store(entries) ==> WellShaped(k, Store(entries)[k])
  {
    forall k | k in Store(entries)
      ensures WellShaped(k, Store(entries)[k])
    {
      StoreLastWins(entries, k);
      var i :| LastFor(entries, k, i) && Store(entries)[k] == entries[i].value.1;
    }
  }

  /** The entry of each line, in order. The index-wise ensures is there for
      the proofs about `Collect`, which need it without unfolding `seq`. */
  function Entries(lines: seq<string>): (es: seq<Entry>)
    ensures |es| == |lines|
    ensures forall i :: 0 <= i < |lines| ==> es[i] == ParseLine(lines[i])
  {
    seq(|lines|, i requires 0 <= i < |lines| => ParseLine(lines[i]))
  }

  /** The record built from the lines in order: the `for` loop of `parse`.
      Only `dimensions` (an array) and a non-zero `pages` can be in it. */
  function Collect(lines: seq<string>): (m: Record)
    ensures m.Keys <= {DimensionsKey, PagesKey}
    ensures DimensionsKey in m ==> m[DimensionsKey].Strings?
    ensures PagesKey in m ==> m[PagesKey].Int? && m[PagesKey].n != 0
  {
    var es := Entries(lines);
    StoredShape(es);
    Store(es)
  }

  /** Line `i` is the last line that contributes an entry for key `k`. */
  predicate LastLineFor(lines: seq<string>, k: string, i: int) {
    && 0 <= i < |lines| && StoresAs(ParseLine(lines[i]), k)
    && forall j :: i < j < |lines| ==> !StoresAs(ParseLine(lines[j]), k)
  }

  /** For the lines of a report: a key is in the record exactly when some line
      contributes it, and the last such line gives its value. */
  lemma CollectLastWins(lines: seq<string>, k: string)
    ensures k in Collect(lines) <==> exists i :: 0 <= i < |lines| && StoresAs(ParseLine(lines[i]), k)
    ensures k in Collect(lines) ==>
      exists i :: LastLineFor(lines, k, i) && Collect(lines)[k] == ParseLine(lines[i]).value.1
  {
    var es := Entries(lines);
    StoreLastWins(es, k);
    if k in Collect(lines) {
      var i :| LastFor(es, k, i) && Store(es)[k] == es[i].value.1;
      assert LastLineFor(lines, k, i);
    }
  }

  /** `parse(str)`: no record for the empty string; otherwise the record
      collected from its `\n`-separated lines. */
  function Parse(str: string): (r: Option<Record>)
    ensures r.None? <==> str == []
    ensures r.Some? ==> r.value.Keys <= {DimensionsKey, PagesKey}
  {
    if str == [] then None else Some(Collect(Split(str, '\n')))
  }

  /** A report written as `\n`-separated lines parses to the record those
      lines collect, whatever the lines are, as long as the report is not
      empty. */
  lemma ParseLines(lines: seq<string>)
    requires |lines| >= 1 && forall k :: 0 <= k < |lines| ==> '\n' !in lines[k]
    requires Join(lines, '\n') != []
    ensures Parse(Join(lines, '\n')) == Some(Collect(lines))
  {
    SplitJoin(lines, '\n');
  }

  /** A report of nothing but line breaks is a report with no fields: an
      empty record, not the absent one. */
  lemma BlankReport(n: nat)
    requires n >= 1
    ensures Parse(seq(n, _ => '\n')) == Some(map[])
  {
    var lines := seq(n + 1, _ => []);
    BlankJoin(n);
    ParseLines(lines);
    forall i | 0 <= i < |lines|
      ensures ParseLine(lines[i]) == None
    {
      KeyValueNone(lines[i]);
    }
    NothingStored(Entries(lines));
  }

  /** `n + 1` empty lines joined by line breaks are `n` line breaks. */
  lemma {:induction false} BlankJoin(n: nat)
    ensures Join(seq(n + 1, _ => []), '\n') == seq(n, _ => '\n')
  {
    if n > 0 {
      var lines: seq<string> := seq(n + 1, _ => []);
      assert lines[1..] == seq(n, _ => []);
      BlankJoin(n - 1);
      assert Join(lines, '\n') == [] + ['\n'] + seq(n - 1, _ => '\n');
    }
  }

  /** Entries that store nothing build the empty record. */
  lemma {:induction false} NothingStored(entries: seq<Entry>)
    requires forall i :: 0 <= i < |entries| ==> entries[i].None?
    ensures Store(entries) == map[]
  {
    if |entries| > 0 {
      NothingStored(entries[..|entries| - 1]);
    }
  }
}
