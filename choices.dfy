/**
 * The filter choices offered in the sidebar: `extract_unique` turns a
 * spreadsheet column of comma-delimited text into the sorted list of the
 * distinct stripped pieces, and `sorted` orders a set of strings.
 */
module Choices {
  import opened Wrappers
  import opened Text

  /** `m` is the smallest element of `s` in Python's string order. */
  predicate IsLeast(m: string, s: set<string>) {
    m in s && forall y :: y in s && y != m ==> Below(m, y)
  }

  /** Every non-empty set of strings has a least element. */
  lemma {:induction false} LeastExists(s: set<string>)
    requires s != {}
    ensures exists m :: IsLeast(m, s)
    decreases |s|
  {
    var x :| x in s;
    if s == {x} {
      assert IsLeast(x, s);
    } else {
      var rest := s - {x};
      LeastExists(rest);
      var m :| IsLeast(m, rest);
      if Below(x, m) {
        forall y | y in s && y != x ensures Below(x, y) {
          if y != m {
            BelowTransitive(x, m, y);
          }
        }
        assert IsLeast(x, s);
      } else {
        BelowTotal(x, m);
        assert IsLeast(m, s);
      }
    }
  }

  /** The least element is unique. */
  lemma LeastUnique(s: set<string>)
    ensures forall a, b :: IsLeast(a, s) && IsLeast(b, s) ==> a == b
  {
    forall a, b | IsLeast(a, s) && IsLeast(b, s) ensures a == b {
      if a != b {
        BelowTransitive(a, b, a);
        BelowIrreflexive(a);
      }
    }
  }

  /**
   * Python's `sorted(items)` for a set of strings: every element once, in
   * strictly increasing order.
   */
  function SortedList(items: set<string>): (r: seq<string>)
    ensures StrictlyIncreasing(r)
    ensures forall x :: x in r <==> x in items
    ensures |r| == |items|
    decreases |items|
  {
    if items == {} then []
    else
      LeastExists(items);
      LeastUnique(items);
      var m :| IsLeast(m, items);
      var tail := SortedList(items - {m});
      var r := [m] + tail;
      assert forall j :: 0 < j < |r| ==> r[j] == tail[j - 1] && r[j] in items - {m};
      r
  }

  /**
   * The values one column entry contributes when entries are parsed by
   * `parse`; a missing entry contributes none.
   */
  ghost function EntryItems(entry: Option<string>, parse: string -> seq<string>): set<string> {
    if entry.Some? then set x | x in parse(entry.value) else {}
  }

  /** Everything the entries of a column contribute. */
  ghost function Listed(series: seq<Option<string>>, parse: string -> seq<string>): set<string> {
    if series == [] then {}
    else Listed(series[..|series| - 1], parse) + EntryItems(series[|series| - 1], parse)
  }

  lemma {:induction false} ListedMembership(series: seq<Option<string>>, parse: string -> seq<string>, x: string)
    ensures x in Listed(series, parse) <==> exists i :: 0 <= i < |series| && series[i].Some? && x in parse(series[i].value)
  {
    if series != [] {
      var n := |series| - 1;
      var init := series[..n];
      ListedMembership(init, parse, x);
      if exists i :: 0 <= i < |series| && series[i].Some? && x in parse(series[i].value) {
        var i :| 0 <= i < |series| && series[i].Some? && x in parse(series[i].value);
        if i < n {
          assert init[i] == series[i];
        }
      }
    }
  }

  /**
   * The inner loop of line 35: the stripped comma-separated pieces of one
   * entry are added to `items`.
   */
  method AddPieces(items: set<string>, entry: string) returns (r: set<string>)
    ensures r == items + set x | x in SplitTrim(entry)
  {
    var pieces := Split(entry, Comma);
    ghost var stripped := SplitTrim(entry);
    r := items;
    for j := 0 to |pieces|
      invariant r == items + set x | x in stripped[..j]
    {
      SplitTrimAt(entry, j);
      PrefixStep(stripped, j);
      r := r + {Strip(pieces[j])};
    }
    assert stripped[..|pieces|] == stripped;
  }

  /** Taking one more element of a sequence appends that element. */
  lemma PrefixStep<T>(s: seq<T>, j: nat)
    requires j < |s|
    ensures s[..j + 1] == s[..j] + [s[j]]
  {
  }

  /**
   * `extract_unique(series)`: the sorted, duplicate-free list of the stripped
   * comma-separated pieces of the non-missing entries of the column.  Missing
   * entries contribute nothing; a blank piece contributes `""`.
   */
  method ExtractUnique(series: seq<Option<string>>) returns (r: seq<string>)
    ensures StrictlyIncreasing(r)
    ensures forall x :: x in r <==> exists i :: 0 <= i < |series| && series[i].Some? && x in SplitTrim(series[i].value)
  {
    var items: set<string> := {};
    for i := 0 to |series|
      invariant items == Listed(series[..i], SplitTrim)
    {
      assert series[..i + 1][..i] == series[..i];
      if series[i].Some? {
        items := AddPieces(items, series[i].value);
      }
    }
    assert series[..|series|] == series;
    r := SortedList(items);
    forall x ensures x in r <==> exists i :: 0 <= i < |series| && series[i].Some? && x in SplitTrim(series[i].value) {
      ListedMembership(series, SplitTrim, x);
    }
  }
}
