/**
 * The string operations the exporter relies on: `str::replace`,
 * `str::lines().next()`, `join(",")` and `String`'s ordering.
 */
module Text {
  import opened Wrappers

  // ----- ordering -----

  /**
   * `Ord for String`: lexicographic over code points (the same order as
   * UTF-8 byte comparison), a proper prefix first.
   */
  predicate LexLe(a: string, b: string) {
    if a == [] then true
    else if b == [] then false
    else if a[0] != b[0] then a[0] < b[0]
    else LexLe(a[1..], b[1..])
  }

  lemma {:induction false} LexLeReflexive(a: string)
    ensures LexLe(a, a)
  {
    if a != [] {
      LexLeReflexive(a[1..]);
    }
  }

  lemma {:induction false} LexLeTotal(a: string, b: string)
    ensures LexLe(a, b) || LexLe(b, a)
  {
    if a != [] && b != [] && a[0] == b[0] {
      LexLeTotal(a[1..], b[1..]);
    }
  }

  lemma {:induction false} LexLeAntisymmetric(a: string, b: string)
    requires LexLe(a, b) && LexLe(b, a)
    ensures a == b
  {
    if a != [] && b != [] {
      LexLeAntisymmetric(a[1..], b[1..]);
      assert a == [a[0]] + a[1..] && b == [b[0]] + b[1..];
    }
  }

  lemma {:induction false} LexLeTransitive(a: string, b: string, c: string)
    requires LexLe(a, b) && LexLe(b, c)
    ensures LexLe(a, c)
  {
    if a != [] && b != [] && c != [] && a[0] == b[0] && b[0] == c[0] {
      LexLeTransitive(a[1..], b[1..], c[1..]);
    }
  }

  // ----- str::replace -----

  /** `s.replace(pat, rep)`: every occurrence, scanned left to right without overlap. */
  function ReplaceAll(s: string, pat: string, rep: string): string
    requires |pat| > 0
    decreases |s|
  {
    if |s| < |pat| then s
    else if s[..|pat|] == pat then rep + ReplaceAll(s[|pat|..], pat, rep)
    else [s[0]] + ReplaceAll(s[1..], pat, rep)
  }

  /** `pat` occurs in `s` at index i. */
  predicate OccursAt(s: string, pat: string, i: nat) {
    i + |pat| <= |s| && s[i..i + |pat|] == pat
  }

  /** Text without the pattern comes back unchanged. */
  lemma {:induction false} ReplaceAbsent(s: string, pat: string, rep: string)
    requires |pat| > 0
    requires forall i: nat :: !OccursAt(s, pat, i)
    ensures ReplaceAll(s, pat, rep) == s
    decreases |s|
  {
    if |s| >= |pat| {
      assert !OccursAt(s, pat, 0);
      forall i: nat ensures !OccursAt(s[1..], pat, i) {
        assert !OccursAt(s, pat, i + 1);
        if i + |pat| <= |s[1..]| {
          assert s[1..][i..i + |pat|] == s[i + 1..i + 1 + |pat|];
        }
      }
      ReplaceAbsent(s[1..], pat, rep);
      assert s == [s[0]] + s[1..];
    }
  }

  /** Replacing a one-character pattern by text without it leaves no occurrence of it. */
  lemma {:induction false} ReplaceCharRemovesIt(s: string, c: char, rep: string)
    requires c !in rep
    ensures c !in ReplaceAll(s, [c], rep)
    decreases |s|
  {
    if |s| >= 1 {
      ReplaceCharRemovesIt(s[1..], c, rep);
      if s[..1] != [c] {
        assert s[0] != c by { assert s[..1] == [s[0]]; }
      }
    }
  }

  /** Replacement never introduces a character found in neither the text nor the replacement. */
  lemma {:induction false} ReplaceKeepsAbsentChar(s: string, pat: string, rep: string, c: char)
    requires |pat| > 0 && c !in s && c !in rep
    ensures c !in ReplaceAll(s, pat, rep)
    decreases |s|
  {
    if |s| >= |pat| {
      if s[..|pat|] == pat {
        assert forall x :: x in s[|pat|..] ==> x in s;
        ReplaceKeepsAbsentChar(s[|pat|..], pat, rep, c);
      } else {
        assert forall x :: x in s[1..] ==> x in s;
        ReplaceKeepsAbsentChar(s[1..], pat, rep, c);
      }
    }
  }

  // ----- str::lines -----

  /** Index of the first '\n', or |s| when there is none. */
  function LineEnd(s: string): (i: nat)
    ensures i <= |s| && '\n' !in s[..i] && (i < |s| ==> s[i] == '\n')
  {
    if s == [] || s[0] == '\n' then 0
    else
      var i := 1 + LineEnd(s[1..]);
      assert s[..i] == [s[0]] + s[1..][..i - 1];
      i
  }

  /**
   * `s.lines().next()`: nothing for the empty string; otherwise the text up
   * to the first "\n", without the '\r' of a "\r\n" ending. The line is a
   * newline-free prefix that ends at a "\n", at a "\r\n" or at the end of
   * the text, and a '\r' just before the "\n" is never kept.
   */
  function FirstLine(s: string): (r: Option<string>)
    ensures r.None? <==> s == []
    ensures r.Some? ==>
              var line := r.value;
              && line <= s
              && '\n' !in line
              && (|line| == |s| || s[|line|] == '\n' || (|line| + 2 <= |s| && s[|line|..|line| + 2] == "\r\n"))
    ensures r.Some? && |r.value| < |s| && s[|r.value|] == '\n' ==> r.value == [] || r.value[|r.value| - 1] != '\r'
    ensures r.Some? && |r.value| == |s| ==> '\n' !in s
  {
    if s == [] then None
    else
      var i := LineEnd(s);
      if i < |s| && i > 0 && s[i - 1] == '\r' then
        assert s[..i - 1] == s[..i][..i - 1];
        assert s[i - 1..i + 1] == "\r\n";
        Some(s[..i - 1])
      else
        assert i == |s| ==> s[..i] == s;
        Some(s[..i])
  }

  // ----- join / split -----

  /** `fields.join(sep)`. */
  function Join(fields: seq<string>, sep: char): string {
    if fields == [] then ""
    else if |fields| == 1 then fields[0]
    else fields[0] + [sep] + Join(fields[1..], sep)
  }

  /** Splits at every `sep`; the partner that reads a joined line back. */
  function Split(s: string, sep: char): (r: seq<string>)
    ensures |r| > 0
  {
    if s == [] then [""]
    else
      var rest := Split(s[1..], sep);
      if s[0] == sep then [""] + rest else [[s[0]] + rest[0]] + rest[1..]
  }

  lemma {:induction false} SplitPrefix(a: string, x: string, sep: char)
    requires sep !in a
    ensures Split(a + x, sep) == [a + Split(x, sep)[0]] + Split(x, sep)[1..]
  {
    if a == [] {
      assert a + x == x;
      assert a + Split(x, sep)[0] == Split(x, sep)[0];
      assert Split(x, sep) == [Split(x, sep)[0]] + Split(x, sep)[1..];
    } else {
      assert (a + x)[0] == a[0] && (a + x)[1..] == a[1..] + x;
      assert a[0] in a;
      assert sep !in a[1..] by {
        forall y | y in a[1..] ensures y in a { }
      }
      SplitPrefix(a[1..], x, sep);
      var rest := Split(a[1..] + x, sep);
      assert Split(a + x, sep) == [[a[0]] + rest[0]] + rest[1..];
      assert [a[0]] + (a[1..] + Split(x, sep)[0]) == a + Split(x, sep)[0];
    }
  }

  /** A joined line splits back into its fields when no field contains the separator. */
  lemma {:induction false} SplitJoin(fields: seq<string>, sep: char)
    requires |fields| > 0
    requires forall i :: 0 <= i < |fields| ==> sep !in fields[i]
    ensures Split(Join(fields, sep), sep) == fields
  {
    if |fields| == 1 {
      SplitPrefix(fields[0], "", sep);
      assert fields[0] + "" == fields[0];
    } else {
      SplitJoin(fields[1..], sep);
      SplitPrefix(fields[0], [sep] + Join(fields[1..], sep), sep);
      assert fields[0] + [sep] + Join(fields[1..], sep) == fields[0] + ([sep] + Join(fields[1..], sep));
      assert ([sep] + Join(fields[1..], sep))[1..] == Join(fields[1..], sep);
      assert Split([sep] + Join(fields[1..], sep), sep) == [""] + Split(Join(fields[1..], sep), sep);
      assert fields[0] + "" == fields[0];
      assert fields == [fields[0]] + fields[1..];
    }
  }

  /** Splitting gives one field more than the text has separators. */
  lemma {:induction false} SplitLength(s: string, sep: char)
    ensures |Split(s, sep)| == 1 + multiset(s)[sep]
  {
    if s != [] {
      SplitLength(s[1..], sep);
      assert s == [s[0]] + s[1..];
      assert multiset(s) == multiset([s[0]]) + multiset(s[1..]);
    }
  }

  /** Joining puts a separator between every two fields, on top of those the fields hold. */
  lemma {:induction false} JoinCount(fields: seq<string>, sep: char)
    requires |fields| > 0
    ensures multiset(Join(fields, sep))[sep] >= |fields| - 1
    ensures (exists i :: 0 <= i < |fields| && sep in fields[i]) ==> multiset(Join(fields, sep))[sep] >= |fields|
  {
    if |fields| > 1 {
      JoinCount(fields[1..], sep);
      var rest := Join(fields[1..], sep);
      assert multiset(Join(fields, sep)) == multiset(fields[0]) + multiset([sep]) + multiset(rest);
      if exists i :: 0 <= i < |fields| && sep in fields[i] {
        var i :| 0 <= i < |fields| && sep in fields[i];
        if i > 0 {
          assert sep in fields[1..][i - 1];
        }
      }
    }
  }

  /**
   * An unescaped field holding the separator does not survive the round
   * trip: the line splits into more fields than were joined.
   */
  lemma SeparatorInFieldBreaksRoundTrip(fields: seq<string>, sep: char)
    requires exists i :: 0 <= i < |fields| && sep in fields[i]
    ensures |Split(Join(fields, sep), sep)| > |fields|
    ensures Split(Join(fields, sep), sep) != fields
  {
    JoinCount(fields, sep);
    SplitLength(Join(fields, sep), sep);
  }

  /** For example, the one field "a,b" reads back as the two fields "a" and "b". */
  lemma CommaInFieldExample()
    ensures Split(Join(["a,b"], ','), ',') == ["a", "b"]
  {
    assert Join(["a,b"], ',') == "a,b";
    assert Split("", ',') == [""];
    assert Split("b", ',') == ["b"] by {
      assert "b"[1..] == "" && "b"[0] == 'b';
      assert ['b'] + "" == "b";
    }
    assert Split(",b", ',') == ["", "b"] by { assert ",b"[1..] == "b" && ",b"[0] == ','; }
    assert Split("a,b", ',') == ["a", "b"] by {
      assert "a,b"[1..] == ",b" && "a,b"[0] == 'a';
      assert ['a'] + "" == "a";
    }
  }
}
