/**
 * The Python string operations the filters rely on: `str.split(sep)`,
 * `str.strip()`, the per-field "split on commas and strip each piece"
 * comprehension, and the `<` order of `str` that `sorted` uses.
 */
module Text {

  /** The field delimiter of every multi-valued spreadsheet column. */
  const Comma: char := ','

  /**
   * Python's `str.isspace()` for one character: exactly the code points that
   * `str.strip()` with no argument removes.
   */
  predicate IsSpace(c: char) {
    var n := c as int;
    (0x09 <= n <= 0x0D) || (0x1C <= n <= 0x20) || n == 0x85 || n == 0xA0 || n == 0x1680
    || (0x2000 <= n <= 0x200A) || n == 0x2028 || n == 0x2029 || n == 0x202F || n == 0x205F
    || n == 0x3000
  }

  predicate AllSpace(s: string) {
    forall k :: 0 <= k < |s| ==> IsSpace(s[k])
  }

  /** The length of the longest all-whitespace prefix of `s`. */
  function LeadingSpace(s: string): (n: nat)
    ensures n <= |s|
    ensures forall k :: 0 <= k < n ==> IsSpace(s[k])
    ensures n < |s| ==> !IsSpace(s[n])
  {
    if |s| > 0 && IsSpace(s[0]) then 1 + LeadingSpace(s[1..]) else 0
  }

  /** The length of the longest all-whitespace suffix of `s`. */
  function TrailingSpace(s: string): (n: nat)
    ensures n <= |s|
    ensures forall k :: |s| - n <= k < |s| ==> IsSpace(s[k])
    ensures n < |s| ==> !IsSpace(s[|s| - 1 - n])
  {
    if |s| > 0 && IsSpace(s[|s| - 1]) then 1 + TrailingSpace(s[..|s| - 1]) else 0
  }

  /**
   * Python's `s.strip()`: the middle part of `s` left after removing every
   * leading and every trailing whitespace character.  The result is empty
   * exactly when `s` is blank, and otherwise starts and ends with a
   * non-whitespace character.
   */
  function Strip(s: string): (r: string)
    ensures exists lo, hi :: 0 <= lo <= hi <= |s| && r == s[lo..hi] && AllSpace(s[..lo]) && AllSpace(s[hi..])
    ensures r == [] || (!IsSpace(r[0]) && !IsSpace(r[|r| - 1]))
  {
    var lo := LeadingSpace(s);
    var rest := s[lo..];
    var t := TrailingSpace(rest);
    var hi := |s| - t;
    assert AllSpace(s[..lo]) by {
      forall k | 0 <= k < lo ensures IsSpace(s[..lo][k]) {
        assert s[..lo][k] == s[k];
      }
    }
    assert AllSpace(s[hi..]) by {
      forall k | 0 <= k < t ensures IsSpace(s[hi..][k]) {
        assert s[hi..][k] == rest[|rest| - t + k];
      }
    }
    assert lo < hi ==> s[lo..hi][0] == s[lo] && s[lo..hi][hi - lo - 1] == rest[|rest| - 1 - t];
    s[lo..hi]
  }

  /** `s.strip()` is empty if and only if `s` consists of whitespace only. */
  lemma StripEmptyIffBlank(s: string)
    ensures Strip(s) == "" <==> AllSpace(s)
  {
    var lo := LeadingSpace(s);
    if !AllSpace(s) {
      var k :| 0 <= k < |s| && !IsSpace(s[k]);
      var lo', hi' :| 0 <= lo' <= hi' <= |s| && Strip(s) == s[lo'..hi'] && AllSpace(s[..lo']) && AllSpace(s[hi'..]);
      if k < lo' {
        assert s[..lo'][k] == s[k];
      } else if k >= hi' {
        assert s[hi'..][k - hi'] == s[k];
      } else {
        assert Strip(s)[k - lo'] == s[k];
      }
    }
  }

  /** A string that neither starts nor ends with whitespace is its own `strip()`. */
  lemma StripUntrimmed(s: string)
    requires s != [] && !IsSpace(s[0]) && !IsSpace(s[|s| - 1])
    ensures Strip(s) == s
  {
    assert LeadingSpace(s) == 0;
    assert TrailingSpace(s) == 0;
  }

  /** Stripping twice strips nothing more. */
  lemma StripIdempotent(s: string)
    ensures Strip(Strip(s)) == Strip(s)
  {
    var r := Strip(s);
    if r != [] {
      assert LeadingSpace(r) == 0;
      assert TrailingSpace(r) == 0;
    }
  }

  /**
   * Python's `s.split(sep)`: the pieces of `s` between occurrences of `sep`.
   * There is always at least one piece and no piece holds `sep`; empty pieces
   * are kept.  `JoinSplit` and `SplitJoin` show it is the inverse of `Join`.
   */
  function Split(s: string, sep: char): (r: seq<string>)
    ensures |r| >= 1
    ensures forall k :: 0 <= k < |r| ==> sep !in r[k]
    decreases |s|
  {
    if |s| == 0 then [""]
    else
      var rest := Split(s[1..], sep);
      if s[0] == sep then [""] + rest
      else [[s[0]] + rest[0]] + rest[1..]
  }

  /** Python's `sep.join(parts)`: the inverse of `Split`. */
  function Join(parts: seq<string>, sep: char): string
    requires |parts| >= 1
  {
    if |parts| == 1 then parts[0] else parts[0] + [sep] + Join(parts[1..], sep)
  }

  /** Joining the pieces of `s` with the separator gives `s` back. */
  lemma {:induction false} JoinSplit(s: string, sep: char)
    ensures Join(Split(s, sep), sep) == s
    decreases |s|
  {
    if |s| > 0 {
      var rest := Split(s[1..], sep);
      JoinSplit(s[1..], sep);
      var r := Split(s, sep);
      if s[0] == sep {
        assert r[1..] == rest;
      } else if |rest| > 1 {
        assert r[1..] == rest[1..];
      }
    }
  }

  /** Splitting `p + t` where `p` holds no separator glues `p` onto the first piece of `t`. */
  lemma {:induction false} SplitPrefix(p: string, t: string, sep: char)
    requires sep !in p
    ensures Split(p + t, sep) == [p + Split(t, sep)[0]] + Split(t, sep)[1..]
    decreases |p|
  {
    if |p| > 0 {
      assert (p + t)[1..] == p[1..] + t;
      assert (p + t)[0] == p[0];
      SplitPrefix(p[1..], t, sep);
      assert [p[0]] + (p[1..] + Split(t, sep)[0]) == p + Split(t, sep)[0];
    } else {
      assert p + t == t;
      assert p + Split(t, sep)[0] == Split(t, sep)[0];
    }
  }

  /** Joining separator-free pieces and splitting again gives the same pieces. */
  lemma {:induction false} SplitJoin(parts: seq<string>, sep: char)
    requires |parts| >= 1
    requires forall k :: 0 <= k < |parts| ==> sep !in parts[k]
    ensures Split(Join(parts, sep), sep) == parts
    decreases |parts|
  {
    if |parts| == 1 {
      SplitPrefix(parts[0], "", sep);
      assert parts[0] + "" == parts[0];
    } else {
      var tail := Join(parts[1..], sep);
      SplitJoin(parts[1..], sep);
      assert parts[0] + [sep] + tail == parts[0] + ([sep] + tail);
      SplitPrefix(parts[0], [sep] + tail, sep);
      assert ([sep] + tail)[1..] == tail;
      assert Split([sep] + tail, sep) == [""] + parts[1..];
      assert parts[0] + "" == parts[0];
      assert [parts[0]] + parts[1..] == parts;
    }
  }

  /**
   * The comprehension `[f.strip() for f in s.split(',')]`: one entry per
   * comma-separated piece of `s`, in order, each stripped.
   */
  function SplitTrim(s: string): (r: seq<string>)
    ensures |r| == |Split(s, Comma)| >= 1
  {
    var pieces := Split(s, Comma);
    seq(|pieces|, k requires 0 <= k < |pieces| => Strip(pieces[k]))
  }

  /** Entry `k` of the parsed field is piece `k` of the split, stripped. */
  lemma SplitTrimAt(s: string, k: nat)
    requires k < |Split(s, Comma)|
    ensures SplitTrim(s)[k] == Strip(Split(s, Comma)[k])
  {
  }

  /** What a field value contributes: `x` is listed iff some comma-separated piece strips to `x`. */
  lemma SplitTrimMembership(s: string, x: string)
    ensures x in SplitTrim(s) <==> exists k :: 0 <= k < |Split(s, Comma)| && Strip(Split(s, Comma)[k]) == x
  {
    var pieces := Split(s, Comma);
    var r := SplitTrim(s);
    if x in r {
      var k :| 0 <= k < |r| && r[k] == x;
      SplitTrimAt(s, k);
    }
    if exists k :: 0 <= k < |pieces| && Strip(pieces[k]) == x {
      var k :| 0 <= k < |pieces| && Strip(pieces[k]) == x;
      SplitTrimAt(s, k);
    }
  }

  /** No parsed entry holds a comma, and none starts or ends with whitespace. */
  lemma SplitTrimEntriesClean(s: string, k: nat)
    requires k < |SplitTrim(s)|
    ensures Comma !in SplitTrim(s)[k]
    ensures SplitTrim(s)[k] == [] || (!IsSpace(SplitTrim(s)[k][0]) && !IsSpace(SplitTrim(s)[k][|SplitTrim(s)[k]| - 1]))
  {
    var piece := Split(s, Comma)[k];
    SplitTrimAt(s, k);
    var x := Strip(piece);
    var lo, hi :| 0 <= lo <= hi <= |piece| && x == piece[lo..hi] && AllSpace(piece[..lo]) && AllSpace(piece[hi..]);
    assert Comma !in piece;
  }

  /** A blank piece (`"a, ,b"`, `"a,,b"`, a trailing comma, an all-blank field) lists `""`. */
  lemma BlankPieceListsEmpty(s: string, k: nat)
    requires k < |Split(s, Comma)|
    requires AllSpace(Split(s, Comma)[k])
    ensures "" in SplitTrim(s)
  {
    StripEmptyIffBlank(Split(s, Comma)[k]);
    assert SplitTrim(s)[k] == "";
  }

  /** Joining clean names with commas and parsing the field gives back the names. */
  lemma SplitTrimJoin(names: seq<string>)
    requires |names| >= 1
    requires forall k :: 0 <= k < |names| ==> Comma !in names[k] && Strip(names[k]) == names[k]
    ensures SplitTrim(Join(names, Comma)) == names
  {
    SplitJoin(names, Comma);
  }

  /**
   * Python's `a < b` on `str`: lexicographic comparison of code points, a
   * proper prefix being smaller.
   */
  predicate Below(a: string, b: string)
    decreases |a|
  {
    if |a| == 0 then |b| > 0
    else if |b| == 0 then false
    else if a[0] != b[0] then a[0] < b[0]
    else Below(a[1..], b[1..])
  }

  lemma {:induction false} BelowIrreflexive(a: string)
    ensures !Below(a, a)
    decreases |a|
  {
    if |a| > 0 {
      BelowIrreflexive(a[1..]);
    }
  }

  lemma {:induction false} BelowTransitive(a: string, b: string, c: string)
    requires Below(a, b) && Below(b, c)
    ensures Below(a, c)
    decreases |a|
  {
    if |a| > 0 && a[0] == b[0] && b[0] == c[0] {
      BelowTransitive(a[1..], b[1..], c[1..]);
    }
  }

  lemma {:induction false} BelowTotal(a: string, b: string)
    requires a != b
    ensures Below(a, b) || Below(b, a)
    decreases |a|
  {
    if |a| > 0 && |b| > 0 && a[0] == b[0] {
      assert a == [a[0]] + a[1..] && b == [b[0]] + b[1..];
      BelowTotal(a[1..], b[1..]);
    }
  }

  /** Sorted in Python's order with no repeated element. */
  predicate StrictlyIncreasing(r: seq<string>) {
    forall i, j :: 0 <= i < j < |r| ==> Below(r[i], r[j])
  }

  /** A strictly increasing list holds no element twice. */
  lemma StrictlyIncreasingDistinct(r: seq<string>)
    requires StrictlyIncreasing(r)
    ensures forall i, j :: 0 <= i < j < |r| ==> r[i] != r[j]
  {
    forall i, j | 0 <= i < j < |r| ensures r[i] != r[j] {
      BelowIrreflexive(r[i]);
    }
  }

  /** `"a, ,b".split(',')` is `["a", " ", "b"]`. */
  lemma SplitExample()
    ensures Split("a, ,b", Comma) == ["a", " ", "b"]
  {
    assert "b"[1..] == "" && ['b'] + "" == "b" && [""][1..] == [];
    assert Split("b", Comma) == ["b"];
    assert ",b"[1..] == "b";
    assert " ,b"[1..] == ",b" && [' '] + "" == " " && ["", "b"][1..] == ["b"];
    assert Split(" ,b", Comma) == [" ", "b"];
    assert ", ,b"[1..] == " ,b";
    assert "a, ,b"[1..] == ", ,b" && ['a'] + "" == "a" && ["", " ", "b"][1..] == [" ", "b"];
  }

  /** The field `"a, ,b"` parses to three entries, the blank middle piece giving `""`. */
  lemma BlankMiddlePieceExample()
    ensures |SplitTrim("a, ,b")| == 3
    ensures "" in SplitTrim("a, ,b")
  {
    SplitExample();
    assert AllSpace(" ");
    BlankPieceListsEmpty("a, ,b", 1);
  }
}
