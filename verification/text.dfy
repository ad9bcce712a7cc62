/**
 Character classes, decimal digit runs and separator-delimited lists.

 These are the building blocks the validators' regular expressions are made
 of: `[0-9]`, `[0-9]+`, and the `(,X)*` / `(-X)*` repetitions that join the
 entries of a list. `Split` is the executable inverse of `Join`; it is what
 the recognisers use to cut a list into its entries, and what the URL model
 uses to read a query string back.
 */
module Text {

  /** `[0-9]` (and `\d`, which matches the same ten characters). */
  predicate IsDigit(c: char) {
    '0' <= c <= '9'
  }

  /** `[0-9]*`: every character is an ASCII digit. */
  predicate AllDigits(s: string) {
    forall i :: 0 <= i < |s| ==> IsDigit(s[i])
  }

  /** `[0-9]+`: a non-empty run of ASCII digits. */
  predicate IsDigitRun(s: string) {
    |s| > 0 && AllDigits(s)
  }

  function DigitValue(c: char): (d: nat)
    requires IsDigit(c)
    ensures d < 10
  {
    c as int - '0' as int
  }

  function DigitChar(d: nat): (c: char)
    requires d < 10
    ensures IsDigit(c) && DigitValue(c) == d
  {
    ('0' as int + d) as char
  }

  /** The number a run of decimal digits denotes (leading zeros allowed). */
  function DecimalValue(s: string): nat
    requires AllDigits(s)
  {
    if s == [] then 0
    else DecimalValue(s[..|s|-1]) * 10 + DigitValue(s[|s|-1])
  }

  lemma DecimalValueSnoc(s: string, c: char)
    requires AllDigits(s) && IsDigit(c)
    ensures AllDigits(s + [c])
    ensures DecimalValue(s + [c]) == DecimalValue(s) * 10 + DigitValue(c)
  {
    assert (s + [c])[..|s|] == s;
  }

  /** The decimal rendering of a natural number, in plain decimal notation. */
  function DecimalString(n: nat): (r: string)
    ensures IsDigitRun(r)
    ensures DecimalValue(r) == n
    ensures |r| > 1 ==> r[0] != '0'
  {
    if n < 10 then [DigitChar(n)]
    else
      var init := DecimalString(n / 10);
      var r := init + [DigitChar(n % 10)];
      assert r[..|r|-1] == init;
      r
  }

  /** `(sep g)*`: each group preceded by one separator, concatenated. */
  function SepGroups(sep: char, groups: seq<string>): string
  {
    if groups == [] then []
    else SepGroups(sep, groups[..|groups|-1]) + [sep] + groups[|groups|-1]
  }

  /** The separator-joined list `parts[0] sep parts[1] sep ...`. */
  function Join(sep: char, parts: seq<string>): string
    requires |parts| >= 1
  {
    parts[0] + SepGroups(sep, parts[1..])
  }

  /** A list written as `head (sep t)*`, the shape of every list pattern here. */
  function ListText(sep: char, head: string, tail: seq<string>): string {
    head + SepGroups(sep, tail)
  }

  /** Index of the last occurrence of `c` in `s`, or -1. */
  function LastIndex(s: string, c: char): (j: int)
    ensures -1 <= j < |s|
    ensures j >= 0 ==> s[j] == c
    ensures forall i :: j < i < |s| ==> s[i] != c
  {
    if s == [] then -1
    else if s[|s|-1] == c then |s| - 1
    else LastIndex(s[..|s|-1], c)
  }

  /** No part contains the separator. */
  predicate SepFree(sep: char, parts: seq<string>) {
    forall i :: 0 <= i < |parts| ==> sep !in parts[i]
  }

  /**
   Cuts `s` at every occurrence of `sep`. There is always at least one part
   and no part contains the separator; `JoinSplit` and `SplitJoin` show that
   `Split` and `Join` are inverse to each other.
   */
  function Split(s: string, sep: char): (parts: seq<string>)
    ensures |parts| >= 1
    ensures SepFree(sep, parts)
  {
    if s == [] then [[]]
    else
      var init := Split(s[..|s|-1], sep);
      var c := s[|s|-1];
      if c == sep then init + [[]]
      else init[..|init|-1] + [init[|init|-1] + [c]]
  }

  /** Joining the parts of a split gives the original string back. */
  lemma {:induction false} JoinSplit(s: string, sep: char)
    ensures Join(sep, Split(s, sep)) == s
    decreases |s|
  {
    if s != [] {
      JoinSplit(s[..|s|-1], sep);
      JoinSplitStep(s[..|s|-1], s[|s|-1], sep);
      assert s[..|s|-1] + [s[|s|-1]] == s;
    }
  }

  lemma JoinSplitStep(y: string, c: char, sep: char)
    requires Join(sep, Split(y, sep)) == y
    ensures Join(sep, Split(y + [c], sep)) == y + [c]
  {
    var init := Split(y, sep);
    if c == sep {
      SplitSnocSep(y, sep);
      JoinSnoc(sep, init, []);
      assert y + [sep] + [] == y + [c];
    } else {
      SplitSnocOther(y, c, sep);
      SplitExtendLast(sep, init, c);
    }
  }

  /** Appending a non-separator character extends the last part of a join. */
  lemma SplitExtendLast(sep: char, init: seq<string>, c: char)
    requires |init| >= 1
    ensures Join(sep, init[..|init|-1] + [init[|init|-1] + [c]]) == Join(sep, init) + [c]
  {
    var n := |init|;
    var parts := init[..n-1] + [init[n-1] + [c]];
    if n > 1 {
      var tl := parts[1..];
      assert tl[..|tl|-1] == init[1..n-1];
      assert init[1..][..|init[1..]|-1] == init[1..n-1];
    }
  }

  lemma SepGroupsSnoc(sep: char, groups: seq<string>, g: string)
    ensures SepGroups(sep, groups + [g]) == SepGroups(sep, groups) + [sep] + g
  {
    assert (groups + [g])[..|groups|] == groups;
  }

  /** One step of `Split`: a separator opens a new part, any other character extends the last one. */
  lemma SplitSnoc(y: string, c: char, sep: char)
    ensures c == sep ==> Split(y + [c], sep) == Split(y, sep) + [[]]
    ensures c != sep ==> Split(y + [c], sep) == Split(y, sep)[..|Split(y, sep)|-1] + [Split(y, sep)[|Split(y, sep)|-1] + [c]]
  {
    assert (y + [c])[..|y + [c]|-1] == y;
  }

  /** `Split` makes one more part than there are separators. */
  lemma {:induction false} SplitCount(s: string, sep: char)
    ensures |Split(s, sep)| == multiset(s)[sep] + 1
    decreases |s|
  {
    if s != [] {
      var y := s[..|s|-1];
      var c := s[|s|-1];
      assert s == y + [c];
      SplitCount(y, sep);
      SplitSnoc(y, c, sep);
      assert multiset(s) == multiset(y) + multiset{c};
    }
  }

  /** A separator at the end opens a new, empty part. */
  lemma SplitSnocSep(y: string, sep: char)
    ensures Split(y + [sep], sep) == Split(y, sep) + [[]]
  {
    SplitSnoc(y, sep, sep);
  }

  /** Any other character at the end extends the last part. */
  lemma SplitSnocOther(y: string, c: char, sep: char)
    requires c != sep
    ensures var py := Split(y, sep); Split(y + [c], sep) == py[..|py|-1] + [py[|py|-1] + [c]]
  {
    SplitSnoc(y, c, sep);
  }

  /** Appending a separator-free tail to a string extends its last part. */
  lemma SplitAppendFree(x: string, t: string, sep: char)
    requires sep !in t
    ensures Split(x + t, sep) == Split(x, sep)[..|Split(x, sep)|-1] + [Split(x, sep)[|Split(x, sep)|-1] + t]
  {
    var px := Split(x, sep);
    assert px == px[..|px|-1] + [px[|px|-1]];
    AppendFreeParts(x, t, sep, px[..|px|-1], px[|px|-1]);
  }

  /** `SplitAppendFree` with the parts of `x` named. */
  lemma {:induction false} AppendFreeParts(x: string, t: string, sep: char, front: seq<string>, last: string)
    requires sep !in t && Split(x, sep) == front + [last]
    ensures Split(x + t, sep) == front + [last + t]
    decreases |t|
  {
    if t == [] {
      assert x + t == x;
      assert last + t == last;
    } else {
      var t' := t[..|t|-1];
      var c := t[|t|-1];
      assert sep !in t';
      AppendFreeParts(x, t', sep, front, last);
      AppendFreeStep(x + t', c, sep, front, last + t');
      assert x + t' + [c] == x + t;
      assert last + t' + [c] == last + t;
    }
  }

  /** One character of `SplitAppendFree`: a non-separator extends the last part. */
  lemma AppendFreeStep(y: string, c: char, sep: char, front: seq<string>, last: string)
    requires c != sep
    requires Split(y, sep) == front + [last]
    ensures Split(y + [c], sep) == front + [last + [c]]
  {
    SplitSnocOther(y, c, sep);
    ReplaceLast(front, last, c);
  }

  /** Dropping the last part of `front + [last]` gives `front` back. */
  lemma ReplaceLast(front: seq<string>, last: string, c: char)
    ensures var p := front + [last]; p[..|p|-1] == front && p[|p|-1] + [c] == last + [c]
  {
    var p := front + [last];
    assert p[..|p|-1] == front;
  }

  /** A separator-free string splits into itself alone. */
  lemma SplitSingle(p: string, sep: char)
    requires sep !in p
    ensures Split(p, sep) == [p]
  {
    SplitAppendFree([], p, sep);
    assert [] + p == p;
    assert [[]][..0] + [[] + p] == [p];
  }

  /** `Split` inverts `Join` when no part contains the separator. */
  lemma {:induction false} SplitJoin(sep: char, parts: seq<string>)
    requires |parts| >= 1
    requires SepFree(sep, parts)
    ensures Split(Join(sep, parts), sep) == parts
    decreases |parts|
  {
    var n := |parts|;
    if n == 1 {
      SplitJoinSingle(sep, parts);
    } else {
      var init := parts[..n-1];
      var last := parts[n-1];
      assert parts == init + [last];
      assert SepFree(sep, init) by {
        forall i | 0 <= i < |init| ensures sep !in init[i] {
          assert init[i] == parts[i];
        }
      }
      assert sep !in last;
      SplitJoin(sep, init);
      SplitJoinSnoc(sep, init, last);
    }
  }

  lemma SplitJoinSingle(sep: char, parts: seq<string>)
    requires |parts| == 1 && sep !in parts[0]
    ensures Split(Join(sep, parts), sep) == parts
  {
    assert Join(sep, parts) == parts[0] by {
      assert parts[1..] == [];
    }
    SplitSingle(parts[0], sep);
    assert parts == [parts[0]];
  }

  lemma SplitJoinSnoc(sep: char, init: seq<string>, p: string)
    requires |init| >= 1
    requires sep !in p
    requires Split(Join(sep, init), sep) == init
    ensures Split(Join(sep, init + [p]), sep) == init + [p]
  {
    JoinSnoc(sep, init, p);
    SplitAfterSep(Join(sep, init), p, sep);
  }

  lemma JoinSnoc(sep: char, init: seq<string>, p: string)
    requires |init| >= 1
    ensures Join(sep, init + [p]) == Join(sep, init) + [sep] + p
  {
    assert (init + [p])[1..] == init[1..] + [p];
    SepGroupsSnoc(sep, init[1..], p);
  }

  /** A separator followed by a separator-free tail adds that tail as a new last part. */
  lemma SplitAfterSep(x: string, p: string, sep: char)
    requires sep !in p
    ensures Split(x + [sep] + p, sep) == Split(x, sep) + [p]
  {
    var px := Split(x, sep);
    var q := px + [[]];
    SplitSnocSep(x, sep);
    SplitAppendFree(x + [sep], p, sep);
    assert q[..|q|-1] == px;
    assert q[|q|-1] + p == p;
  }

  /** One more separator-led entry at the end of a list. */
  lemma ListTextSnoc(sep: char, head: string, tail: seq<string>, t: string)
    ensures ListText(sep, head, tail + [t]) == ListText(sep, head, tail) + [sep] + t
  {
    SepGroupsSnoc(sep, tail, t);
  }

  /** A list with a head and a `(sep X)*` tail is the join of its entries. */
  lemma ListIsJoin(sep: char, head: string, tail: seq<string>)
    ensures Join(sep, [head] + tail) == head + SepGroups(sep, tail)
  {
    assert ([head] + tail)[1..] == tail;
  }

  /** A separator never occurs inside the groups, so a `SepGroups` text contains it iff there are groups. */
  lemma SepInListText(sep: char, head: string, tail: seq<string>)
    requires sep !in head
    ensures sep in head + SepGroups(sep, tail) <==> |tail| > 0
  {
    if |tail| > 0 {
      var s := head + SepGroups(sep, tail);
      var pre := SepGroups(sep, tail[..|tail|-1]);
      assert s[|head| + |pre|] == sep;
    }
  }
}
