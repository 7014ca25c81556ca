/**
 The JavaScript string built-ins the metadata parser relies on, over `seq<char>`:
 the `\s` character class, `toLowerCase`, `trim`, `replace(/c/g, '')`, `slice`,
 `split` on a one-character separator and `includes`.
 */
module JsText {

  /** The characters JavaScript's `\s` and `String.prototype.trim` treat as
      white space: the WhiteSpace and LineTerminator code points. */
  predicate IsWhitespace(c: char) {
    var n := c as int;
    || n == 0x09 || n == 0x0A || n == 0x0B || n == 0x0C || n == 0x0D || n == 0x20
    || n == 0xA0 || n == 0x1680 || (0x2000 <= n <= 0x200A)
    || n == 0x2028 || n == 0x2029 || n == 0x202F || n == 0x205F
    || n == 0x3000 || n == 0xFEFF
  }

  predicate AllWhitespace(s: string) {
    forall i :: 0 <= i < |s| ==> IsWhitespace(s[i])
  }

  predicate HasNoWhitespace(s: string) {
    forall i :: 0 <= i < |s| ==> !IsWhitespace(s[i])
  }

  // ---------------------------------------------------------------------------
  // toLowerCase
  // ---------------------------------------------------------------------------

  predicate IsUpper(c: char) {
    'A' <= c <= 'Z'
  }

  predicate HasNoUpper(s: string) {
    forall i :: 0 <= i < |s| ==> !IsUpper(s[i])
  }

  function LowerChar(c: char): char {
    if IsUpper(c) then (c as int - 'A' as int + 'a' as int) as char else c
  }

  /** `String.prototype.toLowerCase` on the ASCII letters. */
  function ToLower(s: string): (r: string)
    ensures |r| == |s|
    ensures forall i :: 0 <= i < |s| ==> r[i] == LowerChar(s[i])
  {
    if |s| == 0 then [] else [LowerChar(s[0])] + ToLower(s[1..])
  }

  /** Lower-casing leaves no upper-case letter and does not move white space. */
  lemma ToLowerShape(s: string)
    ensures HasNoUpper(ToLower(s))
    ensures forall i :: 0 <= i < |s| ==> (IsWhitespace(ToLower(s)[i]) <==> IsWhitespace(s[i]))
  {
  }

  /** A string with no upper-case letter is its own lower-case form. */
  lemma {:induction false} ToLowerFixed(s: string)
    requires HasNoUpper(s)
    ensures ToLower(s) == s
  {
    if |s| > 0 {
      assert s[0] == LowerChar(s[0]);
      ToLowerFixed(s[1..]);
    }
  }

  // ---------------------------------------------------------------------------
  // replace(/\s/g, '')
  // ---------------------------------------------------------------------------

  /** `s.replace(/\s/g, '')`: every white-space character removed. */
  function RemoveWhitespace(s: string): (r: string)
    ensures HasNoWhitespace(r)
    ensures |r| <= |s|
  {
    if |s| == 0 then []
    else if IsWhitespace(s[0]) then RemoveWhitespace(s[1..])
    else [s[0]] + RemoveWhitespace(s[1..])
  }

  /** Removing white space keeps exactly the other characters. */
  lemma {:induction false} RemoveWhitespaceKeeps(s: string)
    ensures forall c :: c in RemoveWhitespace(s) <==> c in s && !IsWhitespace(c)
  {
    if |s| > 0 {
      RemoveWhitespaceKeeps(s[1..]);
      assert forall c :: c in s <==> c == s[0] || c in s[1..];
    }
  }

  /** Removing white space from a string that has none changes nothing. */
  lemma {:induction false} RemoveWhitespaceFixed(s: string)
    requires HasNoWhitespace(s)
    ensures RemoveWhitespace(s) == s
  {
    if |s| > 0 {
      RemoveWhitespaceFixed(s[1..]);
    }
  }

  /** Removing white space distributes over concatenation. */
  lemma {:induction false} RemoveWhitespaceAppend(a: string, b: string)
    ensures RemoveWhitespace(a + b) == RemoveWhitespace(a) + RemoveWhitespace(b)
  {
    if |a| > 0 {
      assert (a + b)[1..] == a[1..] + b;
      RemoveWhitespaceAppend(a[1..], b);
    } else {
      assert a + b == b;
    }
  }

  // ---------------------------------------------------------------------------
  // replace(/c/g, '')
  // ---------------------------------------------------------------------------

  /** `s.replace(/c/g, '')` for a single character `c`. */
  function RemoveChar(s: string, c: char): (r: string)
    ensures c !in r
    ensures |r| <= |s|
  {
    if |s| == 0 then []
    else if s[0] == c then RemoveChar(s[1..], c)
    else [s[0]] + RemoveChar(s[1..], c)
  }

  /** Removing a character keeps exactly the other characters. */
  lemma {:induction false} RemoveCharKeeps(s: string, c: char)
    ensures forall x :: x in RemoveChar(s, c) <==> x in s && x != c
  {
    if |s| > 0 {
      RemoveCharKeeps(s[1..], c);
      assert forall x :: x in s <==> x == s[0] || x in s[1..];
    }
  }

  /** Removing a character that does not occur changes nothing. */
  lemma {:induction false} RemoveCharFixed(s: string, c: char)
    requires c !in s
    ensures RemoveChar(s, c) == s
  {
    if |s| > 0 {
      assert c !in s[1..];
      RemoveCharFixed(s[1..], c);
    }
  }

  /** Removing a character distributes over concatenation. */
  lemma {:induction false} RemoveCharAppend(a: string, b: string, c: char)
    ensures RemoveChar(a + b, c) == RemoveChar(a, c) + RemoveChar(b, c)
  {
    if |a| > 0 {
      assert (a + b)[1..] == a[1..] + b;
      RemoveCharAppend(a[1..], b, c);
    } else {
      assert a + b == b;
    }
  }

  // ---------------------------------------------------------------------------
  // trim
  // ---------------------------------------------------------------------------

  /** The white space at the front of `s` removed. */
  function TrimStart(s: string): (r: string)
    ensures |r| <= |s| && r == s[|s| - |r|..]
    ensures AllWhitespace(s[..|s| - |r|])
    ensures r == [] || !IsWhitespace(r[0])
  {
    if |s| > 0 && IsWhitespace(s[0]) then
      var r := TrimStart(s[1..]);
      assert s[..|s| - |r|] == [s[0]] + s[1..][..|s| - 1 - |r|];
      r
    else s
  }

  /** The white space at the end of `s` removed. */
  function TrimEnd(s: string): (r: string)
    ensures |r| <= |s| && r == s[..|r|]
    ensures AllWhitespace(s[|r|..])
    ensures r == [] || !IsWhitespace(r[|r| - 1])
  {
    if |s| > 0 && IsWhitespace(s[|s| - 1]) then
      var r := TrimEnd(s[..|s| - 1]);
      assert s[|r|..] == s[..|s| - 1][|r|..] + [s[|s| - 1]];
      r
    else s
  }

  /** `r` is `s` with its leading and trailing white space cut off: a slice
      of `s` framed by white space on both sides, neither of whose ends is
      white space. */
  ghost predicate IsTrimOf(s: string, r: string) {
    exists i, j :: TrimFrame(s, r, i, j)
  }

  /** `r` is `s[i..j]`, with only white space outside it and none at its ends. */
  predicate TrimFrame(s: string, r: string, i: int, j: int) {
    && 0 <= i <= j <= |s| && r == s[i..j]
    && AllWhitespace(s[..i]) && AllWhitespace(s[j..])
    && (r == [] || (!IsWhitespace(r[0]) && !IsWhitespace(r[|r| - 1])))
  }

  /** `String.prototype.trim`. */
  function Trim(s: string): (r: string)
    ensures IsTrimOf(s, r)
  {
    var t := TrimStart(s);
    var r := TrimEnd(t);
    var i := |s| - |t|;
    assert r == s[i..i + |r|];
    assert s[i + |r|..] == t[|r|..];
    assert r != [] ==> r[0] == t[0];
    assert TrimFrame(s, r, i, i + |r|);
    r
  }

  /** Trimming the front stops at the first character that is not white space. */
  lemma {:induction false} TrimStartAt(s: string, i: nat)
    requires i <= |s| && AllWhitespace(s[..i])
    requires i == |s| || !IsWhitespace(s[i])
    ensures TrimStart(s) == s[i..]
  {
    if i > 0 {
      assert s[..i][0] == s[0];
      assert s[1..][..i - 1] == s[..i][1..];
      TrimStartAt(s[1..], i - 1);
    }
  }

  /** Trimming the end stops at the last character that is not white space. */
  lemma {:induction false} TrimEndAt(s: string, j: nat)
    requires j <= |s| && AllWhitespace(s[j..])
    requires j == 0 || !IsWhitespace(s[j - 1])
    ensures TrimEnd(s) == s[..j]
    decreases |s|
  {
    if j < |s| {
      assert s[j..][|s| - 1 - j] == s[|s| - 1];
      assert s[..|s| - 1][j..] == s[j..][..|s| - 1 - j];
      TrimEndAt(s[..|s| - 1], j);
    }
  }

  /** There is only one way to trim a string: `IsTrimOf` pins its result to
      `Trim`. */
  lemma TrimUnique(s: string, r: string)
    requires IsTrimOf(s, r)
    ensures r == Trim(s)
  {
    var i, j :| TrimFrame(s, r, i, j);
    if r == [] {
      TrimAllBlank(s, i, j);
    } else {
      TrimFrameUnique(s, r, i, j);
    }
  }

  /** A string that is all white space trims to nothing. */
  lemma TrimAllBlank(s: string, i: int, j: int)
    requires TrimFrame(s, [], i, j)
    ensures Trim(s) == []
  {
    assert s == s[..i] + s[i..j] + s[j..];
    assert AllWhitespace(s[..|s|]);
    TrimStartAt(s, |s|);
  }

  /** A non-empty frame fixes both ends of the trim. */
  lemma TrimFrameUnique(s: string, r: string, i: int, j: int)
    requires TrimFrame(s, r, i, j) && r != []
    ensures Trim(s) == r
  {
    assert s[i] == r[0];
    TrimStartAt(s, i);
    var t := s[i..];
    assert t[j - i..] == s[j..];
    assert t[j - i - 1] == r[|r| - 1];
    TrimEndAt(t, j - i);
    assert t[..j - i] == r;
  }

  // ---------------------------------------------------------------------------
  // slice
  // ---------------------------------------------------------------------------

  /** How `String.prototype.slice` reads an index: negative counts from the
      end, and the result is clamped to `[0, len]`. */
  function SliceIndex(k: int, len: nat): (r: nat)
    ensures r <= len
    ensures 0 <= k <= len ==> r == k
    ensures -(len as int) <= k < 0 ==> r as int == len as int + k
  {
    if k < 0 then (if len + k < 0 then 0 else len + k)
    else if k > len then len
    else k
  }

  /** `s.slice(start, end)`; an empty string when the bounds cross. */
  function Slice(s: string, start: int, end: int): (r: string)
    ensures |r| <= |s|
  {
    var from := SliceIndex(start, |s|);
    var to := SliceIndex(end, |s|);
    if from < to then s[from..to] else []
  }

  /** `s.slice(0, 1)` is the first character, if any. */
  lemma SliceFirst(s: string)
    ensures Slice(s, 0, 1) == (if |s| == 0 then [] else [s[0]])
  {
  }

  /** `s.slice(-1)` is the last character, if any. */
  lemma SliceLast(s: string)
    ensures Slice(s, -1, |s|) == (if |s| == 0 then [] else [s[|s| - 1]])
  {
  }

  /** `s.slice(1, s.length - 1)` drops the first and the last character. */
  lemma SliceInner(s: string)
    ensures Slice(s, 1, |s| - 1) == (if |s| < 2 then [] else s[1..|s| - 1])
  {
  }

  // ---------------------------------------------------------------------------
  // split on one character, and its inverse join
  // ---------------------------------------------------------------------------

  /** `s.split(c)` for a one-character separator: the maximal runs between
      occurrences of `c`, in order; never an empty list. */
  function Split(s: string, c: char): (parts: seq<string>)
    ensures |parts| >= 1
    ensures forall k :: 0 <= k < |parts| ==> c !in parts[k]
  {
    if |s| == 0 then [[]]
    else
      var rest := Split(s[1..], c);
      if s[0] == c then [[]] + rest
      else [[s[0]] + rest[0]] + rest[1..]
  }

  /** `parts.join(c)`. */
  function Join(parts: seq<string>, c: char): string
    requires |parts| >= 1
  {
    if |parts| == 1 then parts[0] else parts[0] + [c] + Join(parts[1..], c)
  }

  /** Joining the pieces of a split gives back the original string. */
  lemma {:induction false} JoinSplit(s: string, c: char)
    ensures Join(Split(s, c), c) == s
  {
    if |s| > 0 {
      var rest := Split(s[1..], c);
      JoinSplit(s[1..], c);
      if s[0] == c {
        assert Join([[]] + rest, c) == [] + [c] + Join(rest, c);
      } else {
        var parts := [[s[0]] + rest[0]] + rest[1..];
        if |rest| == 1 {
          assert Join(parts, c) == [s[0]] + rest[0];
        } else {
          assert parts[1..] == rest[1..];
          assert Join(rest, c) == rest[0] + [c] + Join(rest[1..], c);
          assert Join(parts, c) == [s[0]] + rest[0] + [c] + Join(rest[1..], c);
        }
      }
    }
  }

  /** Splitting a join of separator-free pieces gives back the pieces. */
  lemma {:induction false} SplitJoin(parts: seq<string>, c: char)
    requires |parts| >= 1
    requires forall k :: 0 <= k < |parts| ==> c !in parts[k]
    ensures Split(Join(parts, c), c) == parts
  {
    if |parts| == 1 {
      SplitNoSeparator(parts[0], c);
    } else {
      SplitJoin(parts[1..], c);
      SplitAppendSeparator(parts[0], Join(parts[1..], c), c);
      assert [parts[0]] + parts[1..] == parts;
    }
  }

  /** A string without the separator splits into itself. */
  lemma {:induction false} SplitNoSeparator(s: string, c: char)
    requires c !in s
    ensures Split(s, c) == [s]
  {
    if |s| > 0 {
      assert c !in s[1..];
      SplitNoSeparator(s[1..], c);
      assert [s[0]] + s[1..] == s;
    }
  }

  /** A separator-free prefix followed by the separator is one piece of its own. */
  lemma {:induction false} SplitAppendSeparator(a: string, b: string, c: char)
    requires c !in a
    ensures Split(a + [c] + b, c) == [a] + Split(b, c)
  {
    if |a| == 0 {
      assert a + [c] + b == [c] + b;
      assert ([c] + b)[1..] == b;
    } else {
      assert (a + [c] + b)[1..] == a[1..] + [c] + b;
      assert c !in a[1..];
      SplitAppendSeparator(a[1..], b, c);
      assert [a[0]] + a[1..] == a;
    }
  }

  // ---------------------------------------------------------------------------
  // includes
  // ---------------------------------------------------------------------------

  /** `s.includes(t)`. */
  predicate Contains(s: string, t: string)
    decreases |s|
  {
    if |t| > |s| then false
    else s[..|t|] == t || (|s| > 0 && Contains(s[1..], t))
  }

  /** `t` occurs in `s` starting at index `i`. */
  predicate OccursAt(s: string, t: string, i: int) {
    0 <= i && i + |t| <= |s| && s[i..i + |t|] == t
  }

  /** `Contains` holds exactly when `t` occurs somewhere in `s`. */
  lemma {:induction false} ContainsIff(s: string, t: string)
    ensures Contains(s, t) <==> exists i :: OccursAt(s, t, i)
    decreases |s|
  {
    if |t| > |s| {
    } else if s[..|t|] == t {
      assert OccursAt(s, t, 0);
    } else {
      ContainsIff(s[1..], t);
      if exists i :: OccursAt(s[1..], t, i) {
        var i :| OccursAt(s[1..], t, i);
        assert s[1..][i..i + |t|] == s[i + 1..i + 1 + |t|];
        assert OccursAt(s, t, i + 1);
      }
      if exists i :: OccursAt(s, t, i) {
        var i :| OccursAt(s, t, i);
        assert i != 0;
        assert s[1..][i - 1..i - 1 + |t|] == s[i..i + |t|];
        assert OccursAt(s[1..], t, i - 1);
      }
    }
  }
}
