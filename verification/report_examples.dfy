/**
 Whole reports run through `parse`, and process results through `exec`'s
 callback: the behaviour of the parser on the report lines the tool writes.
 */
module ReportExamples {
  import opened Wrappers
  import opened JsText
  import opened JsNumber
  import opened Metadata
  import opened Mutool

  /** A numeral is a non-empty run of `-` and digits: no white space, no
      separator, no line break. */
  lemma ShowIntShape(n: int)
    ensures |ShowInt(n)| >= 1
    ensures forall i :: 0 <= i < |ShowInt(n)| ==> ShowInt(n)[i] == '-' || IsDigitIn(ShowInt(n)[i], 10)
    ensures HasNoWhitespace(ShowInt(n)) && NoSep(ShowInt(n))
    ensures '\n' !in ShowInt(n) && '\r' !in ShowInt(n)
  {
    var d := Decimal(if n < 0 then -n else n);
    if n < 0 {
      assert ShowInt(n) == "-" + d;
      assert forall i :: 1 <= i < |ShowInt(n)| ==> ShowInt(n)[i] == d[i - 1];
    }
    forall i | 0 <= i < |ShowInt(n)|
      ensures !IsWhitespace(ShowInt(n)[i])
    {
      if ShowInt(n)[i] != '-' {
        DigitNotWhitespace(ShowInt(n)[i]);
      }
    }
  }

  /** A one-line report holds what its line contributes. */
  lemma OneLineReport(line: string)
    requires line != [] && '\n' !in line
    ensures Parse(line) == Some(match ParseLine(line) case None => map[] case Some((k, v)) => map[k := v])
  {
    SplitNoSeparator(line, '\n');
    var es := Entries([line]);
    assert es == [ParseLine(line)];
    assert es[..0] == [];
    assert Store(es[..0]) == map[];
  }

  /** A `pages` line with a non-zero count contributes that count. */
  lemma PagesEntry(key: string, n: int)
    requires NormalizeKey(key) == PagesKey && n != 0
    ensures EntryOf(key, ShowInt(n)) == Some((PagesKey, Int(n)))
  {
    ShowIntShape(n);
    FormatKeyRename(key, ShowInt(n));
    RemoveCharFixed(ShowInt(n), '\r');
    ParseIntShowInt(n);
  }

  /** The `pages` line of a report: `key: <n>` gives `pages = n`. */
  lemma PagesLine(key: string, n: int)
    requires NormalizeKey(key) == PagesKey && NoSep(key) && n != 0
    ensures ParseLine(key + ": " + ShowInt(n)) == Some((PagesKey, Int(n)))
  {
    assert key + ": " + ShowInt(n) == key + [':'] + " " + ShowInt(n);
    assert ParseLine(key + [':'] + " " + ShowInt(n)) == EntryOf(key, ShowInt(n)) by {
      ShowIntShape(n);
      WrittenLine(key, " ", ShowInt(n));
    }
    PagesEntry(key, n);
  }

  /** A report of two lines, each ended by a line break: the record holds
      what the first line contributes, overwritten by what the second does. */
  lemma TwoLineReport(l1: string, l2: string)
    requires '\n' !in l1 && '\n' !in l2
    ensures Parse(l1 + "\n" + l2 + "\n") == Some(Store([ParseLine(l1), ParseLine(l2), None]))
  {
    var lines := [l1, l2, ""];
    assert Join(lines, '\n') == l1 + "\n" + l2 + "\n" by {
      assert Join([""], '\n') == "";
      assert Join([l2, ""], '\n') == l2 + "\n" + "";
      assert Join(lines, '\n') == l1 + "\n" + (l2 + "\n" + "");
    }
    SplitJoin(lines, '\n');
    KeyValueNone("");
    var es := Entries(lines);
    assert es[0] == ParseLine(l1) && es[1] == ParseLine(l2) && es[2] == None;
    assert es == [ParseLine(l1), ParseLine(l2), None];
  }

  /** Two `pages` lines: the later one wins. */
  lemma DuplicatePages(key: string, a: int, b: int)
    requires NormalizeKey(key) == PagesKey && NoSep(key) && '\n' !in key
    requires a != 0 && b != 0
    ensures Parse(key + ": " + ShowInt(a) + "\n" + key + ": " + ShowInt(b) + "\n")
      == Some(map[PagesKey := Int(b)])
  {
    PagesReport(key, a, b);
    PagesLine(key, a);
    PagesLine(key, b);
    StoreTwice(PagesKey, Int(a), Int(b));
  }

  /** The two-line `pages` report splits into its two lines. */
  lemma PagesReport(key: string, a: int, b: int)
    requires '\n' !in key
    ensures var l1 := key + ": " + ShowInt(a);
      var l2 := key + ": " + ShowInt(b);
      Parse(key + ": " + ShowInt(a) + "\n" + key + ": " + ShowInt(b) + "\n")
        == Some(Store([ParseLine(l1), ParseLine(l2), None]))
  {
    var l1 := key + ": " + ShowInt(a);
    var l2 := key + ": " + ShowInt(b);
    ShowIntShape(a);
    ShowIntShape(b);
    assert '\n' !in ": ";
    assert '\n' !in l1 && '\n' !in l2;
    assert key + ": " + ShowInt(a) + "\n" + key + ": " + ShowInt(b) + "\n" == l1 + "\n" + l2 + "\n";
    TwoLineReport(l1, l2);
  }

  /** Storing a key twice keeps the second value. */
  lemma StoreTwice(k: string, a: Value, b: Value)
    ensures Store([Some((k, a)), Some((k, b)), None]) == map[k := b]
  {
    var e0: Entry := Some((k, a));
    var e1: Entry := Some((k, b));
    assert Store([e0]) == map[k := a] by {
      assert [e0][..0] == [];
    }
    assert Store([e0, e1]) == map[k := b] by {
      assert [e0, e1][..1] == [e0];
    }
    assert [e0, e1, None][..2] == [e0, e1];
  }

  /** A later line that contributes nothing, such as a `pages` line that
      reads as `0` or `NaN`, leaves the earlier line's value in place: the
      write is skipped, not turned into a removal. */
  lemma DroppedLineKeepsEarlier(l1: string, l2: string, k: string, v: Value)
    requires '\n' !in l1 && '\n' !in l2
    requires ParseLine(l1) == Some((k, v)) && ParseLine(l2) == None
    ensures Parse(l1 + "\n" + l2 + "\n") == Some(map[k := v])
  {
    TwoLineReport(l1, l2);
    StoreThenNothing(k, v);
  }

  /** Storing a key and then two entries without a key keeps the first value. */
  lemma StoreThenNothing(k: string, v: Value)
    ensures Store([Some((k, v)), None, None]) == map[k := v]
  {
    var e0: Entry := Some((k, v));
    assert Store([e0]) == map[k := v] by {
      assert [e0][..0] == [];
    }
    assert Store([e0, None]) == map[k := v] by {
      assert [e0, None][..1] == [e0];
    }
    assert [e0, None, None][..2] == [e0, None];
  }

  /** `pages: 3` followed by `pages: 0` keeps `pages = 3`. */
  lemma ZeroPagesKeepsEarlier(key: string)
    requires NormalizeKey(key) == PagesKey && NoSep(key) && '\n' !in key
    ensures Parse(key + ": " + ShowInt(3) + "\n" + key + ": " + ShowInt(0) + "\n")
      == Some(map[PagesKey := Int(3)])
  {
    PagesReport(key, 3, 0);
    PagesLine(key, 3);
    PagesZeroLine(key);
    StoreThenNothing(PagesKey, Int(3));
  }

  /** A `pages` line reading `0` contributes nothing. */
  lemma PagesZeroLine(key: string)
    requires NormalizeKey(key) == PagesKey && NoSep(key)
    ensures ParseLine(key + ": " + ShowInt(0)) == None
  {
    var v := ShowInt(0);
    ShowIntShape(0);
    assert key + ": " + v == key + [':'] + " " + v;
    WrittenLine(key, " ", v);
    PagesEntryOf(key, v);
    RemoveCharFixed(v, '\r');
    ParseIntShowInt(0);
  }

  /** The page-count line as the tool writes it, with a carriage return. */
  lemma PagesLineCR(key: string, n: int)
    requires NormalizeKey(key) == PagesKey && NoSep(key)
    ensures ParseLine(key + ": " + ShowInt(n) + "\r")
      == if n != 0 then Some((PagesKey, Int(n))) else None
  {
    var v := ShowInt(n) + "\r";
    var line := key + ": " + v;
    ShowIntShape(n);
    assert NoSep(v) by {
      assert forall i :: 0 <= i < |ShowInt(n)| ==> v[i] == ShowInt(n)[i];
    }
    assert key + ": " + ShowInt(n) + "\r" == line == key + [':'] + " " + v;
    WrittenLine(key, " ", v);
    assert ParseLine(line) == EntryOf(key, v);
    PagesEntryOf(key, v);
    assert RemoveChar(v, '\r') == ShowInt(n) by {
      RemoveCharAppend(ShowInt(n), "\r", '\r');
      assert RemoveChar("\r", '\r') == [];
      RemoveCharFixed(ShowInt(n), '\r');
    }
    ParseIntShowInt(n);
    assert EntryOf(key, v) == if n != 0 then Some((PagesKey, Int(n))) else None;
  }

  /** A one-line report of the page count: the count is read; a count of
      zero leaves an empty record. */
  lemma PagesWithCarriageReturn(key: string, n: int)
    requires NormalizeKey(key) == PagesKey && NoSep(key) && '\n' !in key
    ensures Parse(key + ": " + ShowInt(n) + "\r")
      == Some(if n != 0 then map[PagesKey := Int(n)] else map[])
  {
    var line := key + ": " + ShowInt(n) + "\r";
    ShowIntShape(n);
    assert '\n' !in ": " && '\n' !in "\r";
    assert '\n' !in line;
    PagesLineCR(key, n);
    OneLineReport(line);
  }

  /** A line for any key other than `dimensions`, `pages` and `1(10r)` is
      dropped, whatever its value. */
  lemma OtherKeyDropped(key: string, val: string)
    requires NormalizeKey(key) !in {DimensionsKey, PagesKey, RawDimensionsKey}
    requires NoSep(key) && '\n' !in key + val
    ensures Parse(key + ": " + val) == Some(map[])
  {
    var line := key + ": " + val;
    assert line == key + [':', ' '] + val;
    KeySegment(key, ' ', val);
    var v := KeyValue(line).value.1;
    FormatKeyRename(key, v);
    EntryDropped(key, v);
    assert ParseLine(line) == None;
    assert '\n' !in line by {
      assert forall c :: c in line ==> c in key || c == ':' || c == ' ' || c in val;
    }
    OneLineReport(line);
  }

  /** A `Title` line is dropped: there is no generic coercion. */
  lemma TitleDropped(val: string)
    ensures EntryOf("Title", val) == None
  {
    TitleLowers();
    FormatKeyRename("Title", val);
    EntryDropped("Title", val);
  }

  lemma TitleLowers()
    ensures NormalizeKey("Title") == "title"
  {
  }

  /** A `Tagged` line is dropped too, whether it says `yes` or `no`. */
  lemma TaggedDropped(val: string)
    ensures EntryOf("Tagged", val) == None
  {
    TaggedLowers();
    FormatKeyRename("Tagged", val);
    EntryDropped("Tagged", val);
  }

  lemma TaggedLowers()
    ensures NormalizeKey("Tagged") == "tagged"
  {
  }

  /** `1 (10 R)` is the page-box key as the tool writes it. */
  lemma RawDimensionsSpelling()
    ensures NormalizeKey("1 (10 R)") == RawDimensionsKey && NoSep("1 (10 R)")
  {
    RawKeyLower();
    RawKeySpaces();
    assert ':' !in "1 (10 R)";
  }

  lemma RawKeyLower()
    ensures ToLower("1 (10 R)") == "1 (10 r)"
  {
  }

  lemma RawKeySpaces()
    ensures RemoveWhitespace("1 (10 r)") == RawDimensionsKey
  {
    var a, b, c := "1", "(10", "r)";
    assert "1 (10 r)" == a + " " + b + " " + c;
    DropSpace(a, b);
    DropSpace(a + " " + b, c);
    RemoveWhitespaceFixed(a);
    assert a + b + c == RawDimensionsKey;
  }

  /** A space before a piece without white space is dropped. */
  lemma DropSpace(a: string, b: string)
    requires HasNoWhitespace(b)
    ensures RemoveWhitespace(a + " " + b) == RemoveWhitespace(a) + b
  {
    var sp := " ";
    assert RemoveWhitespace(sp) == [] by {
      assert IsWhitespace(sp[0]) && sp[1..] == [];
    }
    RemoveWhitespaceAppend(a, sp);
    RemoveWhitespaceAppend(a + sp, b);
    RemoveWhitespaceFixed(b);
    assert RemoveWhitespace(a) + [] == RemoveWhitespace(a);
  }

  /** The page-box line, with a key normalizing to `1(10r)` and bracketed
      coordinates, becomes `dimensions`. */
  lemma DimensionsLine(key: string, parts: seq<string>)
    requires NormalizeKey(key) == RawDimensionsKey && NoSep(key)
    requires |parts| >= 1
    requires forall k :: 0 <= k < |parts| ==>
      |parts[k]| >= 1 && HasNoWhitespace(parts[k]) && ':' !in parts[k] && '\r' !in parts[k]
    ensures ParseLine(key + ": [" + Join(parts, ' ') + "]\r") == Some((DimensionsKey, Strings(parts)))
  {
    DimensionsLineSplits(key, parts);
    DimensionsKeyCR(key, parts);
    DimensionsValueCR(parts);
    RawKeyNonEmpty(key);
    DimensionsEntry(key, "[" + Join(parts, ' ') + "]\r");
  }

  /** A key that normalizes to `1(10r)` is not empty. */
  lemma RawKeyNonEmpty(key: string)
    requires NormalizeKey(key) == RawDimensionsKey
    ensures key != []
  {
    assert |key| >= |RawDimensionsKey|;
  }

  /** The bracketed coordinates with a carriage return rename `1(10r)`. */
  lemma DimensionsKeyCR(key: string, parts: seq<string>)
    requires NormalizeKey(key) == RawDimensionsKey
    requires |parts| >= 1
    requires forall k :: 0 <= k < |parts| ==> |parts[k]| >= 1 && HasNoWhitespace(parts[k])
    ensures FormatKey(key, "[" + Join(parts, ' ') + "]\r") == DimensionsKey
  {
    var t := "[" + Join(parts, ' ') + "]";
    assert "[" + Join(parts, ' ') + "]\r" == t + "\r";
    JoinShape(parts);
    DimensionsKeyFor(key, t);
  }

  /** The page-box line splits into its key and bracketed value. */
  lemma DimensionsLineSplits(key: string, parts: seq<string>)
    requires NoSep(key) && |parts| >= 1
    requires forall k :: 0 <= k < |parts| ==> ':' !in parts[k] && HasNoWhitespace(parts[k])
    ensures ParseLine(key + ": [" + Join(parts, ' ') + "]\r") == EntryOf(key, "[" + Join(parts, ' ') + "]\r")
  {
    forall k | 0 <= k < |parts|
      ensures '\n' !in parts[k]
    {
      assert IsWhitespace('\n');
    }
    JoinKeeps(parts);
    BracketedLine(key, Join(parts, ' '));
  }

  /** `key: [j]` with a carriage return, where `j` has no colon, splits into
      the key and the bracketed value. */
  lemma BracketedLine(key: string, j: string)
    requires NoSep(key) && ':' !in j
    ensures ParseLine(key + ": [" + j + "]\r") == EntryOf(key, "[" + j + "]\r")
  {
    var v := "[" + j + "]\r";
    LineShape(key, j);
    BracketedNoSep(j);
    assert v[0] == '[' && !IsWhitespace('[');
    assert AllWhitespace(" ");
    WrittenLine(key, " ", v);
  }

  /** `key: [j]` followed by a carriage return is the key, the separator `: `
      and the bracketed value. */
  lemma LineShape(key: string, j: string)
    ensures key + ": [" + j + "]\r" == key + [':'] + " " + ("[" + j + "]\r")
  {
    assert ": [" == [':'] + " " + "[";
  }

  /** A bracketed value whose inside has no `:` holds no separator. */
  lemma BracketedNoSep(j: string)
    requires ':' !in j
    ensures NoSep("[" + j + "]\r")
  {
    var v := "[" + j + "]\r";
    assert ':' !in v;
  }

  /** The bracketed coordinates with a carriage return read as the array of
      coordinates. */
  lemma DimensionsValueCR(parts: seq<string>)
    requires |parts| >= 1
    requires forall k :: 0 <= k < |parts| ==>
      |parts[k]| >= 1 && HasNoWhitespace(parts[k]) && '\r' !in parts[k]
    ensures FormatValue(DimensionsKey, "[" + Join(parts, ' ') + "]\r") == Array(parts)
  {
    var t := "[" + Join(parts, ' ') + "]";
    var val := t + "\r";
    assert "[" + Join(parts, ' ') + "]\r" == val;
    assert RemoveChar(val, '\r') == RemoveChar(t, '\r') by {
      RemoveCharAppend(t, "\r", '\r');
      assert RemoveChar("\r", '\r') == [];
    }
    FormatValueIgnoresCR(DimensionsKey, val);
    FormatValueIgnoresCR(DimensionsKey, t);
    DimensionsRoundTrip(parts);
  }

  /** A one-line report of the page box holds `dimensions` and nothing else. */
  lemma DimensionsReport(key: string, parts: seq<string>)
    requires NormalizeKey(key) == RawDimensionsKey && NoSep(key) && '\n' !in key
    requires |parts| >= 1
    requires forall k :: 0 <= k < |parts| ==>
      |parts[k]| >= 1 && HasNoWhitespace(parts[k]) && ':' !in parts[k] && '\r' !in parts[k] && '\n' !in parts[k]
    ensures Parse(key + ": [" + Join(parts, ' ') + "]\r") == Some(map[DimensionsKey := Strings(parts)])
  {
    var line := key + ": [" + Join(parts, ' ') + "]\r";
    JoinKeeps(parts);
    assert '\n' !in ": [" && '\n' !in "]\r";
    assert '\n' !in line;
    DimensionsLine(key, parts);
    OneLineReport(line);
  }

  /** A bracketed value followed by a carriage return renames `1(10r)`. */
  lemma DimensionsKeyFor(key: string, t: string)
    requires NormalizeKey(key) == RawDimensionsKey && IsBracketed(t)
    ensures FormatKey(key, t + "\r") == DimensionsKey
  {
    var val := t + "\r";
    assert t[..0] == [] && val[|t|..] == "\r";
    assert TrimFrame(val, t, 0, |t|);
    TrimUnique(val, t);
    FormatKeyRename(key, val);
  }

  /** A join of pieces without `:` or line breaks has none either. */
  lemma {:induction false} JoinKeeps(parts: seq<string>)
    requires |parts| >= 1
    requires forall k :: 0 <= k < |parts| ==> ':' !in parts[k] && '\n' !in parts[k]
    ensures ':' !in Join(parts, ' ') && '\n' !in Join(parts, ' ')
  {
    if |parts| > 1 {
      JoinKeeps(parts[1..]);
    }
  }

  /** A string that lacks the first character of `t` does not contain `t`. */
  lemma MissingFirstChar(s: string, t: string)
    requires |t| >= 1 && t[0] !in s
    ensures !Contains(s, t)
  {
    ContainsIff(s, t);
    forall i | OccursAt(s, t, i)
      ensures false
    {
    }
  }

  /** Standard error reading `error: bad file` rejects with that text,
      whatever standard output holds. */
  lemma BadFileRejects(stdout: string)
    ensures Classify(ProcessResult(None, stdout, "error: bad file"))
      == Rejected(ToolError("error: bad file"))
  {
    assert [] + ErrorMarker + " bad file" == "error: bad file";
    MarkerRejects([], " bad file", stdout);
  }

  /** A warning on standard error is passed back as it is. */
  lemma WarningResolvesRaw(stdout: string)
    ensures Classify(ProcessResult(None, stdout, "warning: skipping"))
      == Resolved(RawText("warning: skipping"))
  {
    MissingFirstChar("warning: skipping", ErrorMarker);
  }
}
