/**
 `goodint`, `goodcsv`, `goodcsvinput` and `goodcsvanalog` (J_IPX800.js:25-50).

 The three list patterns share one shape, `^[0-9]*H?(,[0-9]+T?)*$`: a first
 entry of any number of digits with an optional tag letter from the set H,
 then any number of comma-led entries of at least one digit with an optional
 tag letter from the set T.

   goodcsv        H = T = {}                 '^[0-9]*(,[0-9]+)*$'
   goodcsvinput   H = T = {P, D, M}          '^[0-9]*[PDM]?(,[0-9]+[PDM]?)*$', flag i
   goodcsvanalog  H = {T, L}, T = {T, L, H}  '^[0-9]*[TL]?(,[0-9]+[TLH]?)*$', flag i

 All four patterns carry the `i` flag. Without the Unicode flag, JavaScript
 compares characters after upper-casing them and never lets a non-ASCII
 character fold onto an ASCII one, so `[PDM]` with `i` matches exactly
 P, D, M, p, d and m; digits are unaffected.
 */
module CsvLists {
  import opened Text

  /** Tag-letter sets are written in upper case. */
  predicate TagLetters(letters: string) {
    forall i :: 0 <= i < |letters| ==> 'A' <= letters[i] <= 'Z'
  }

  /** A character class of upper-case letters under the `i` flag. */
  predicate MatchesLetter(c: char, letters: string) {
    c in letters || ('a' <= c <= 'z' && (c as int - 32) as char in letters)
  }

  /** `[0-9]{min,}L?`: at least `minDigits` digits, then at most one tag letter. */
  predicate TaggedField(f: string, minDigits: nat, letters: string) {
    || (AllDigits(f) && |f| >= minDigits)
    || (|f| >= 1 && MatchesLetter(f[|f|-1], letters) && AllDigits(f[..|f|-1]) && |f| - 1 >= minDigits)
  }

  /** The language of `^[0-9]*H?(,[0-9]+T?)*$`: a head entry followed by comma-led entries. */
  ghost predicate TaggedListSpec(s: string, headLetters: string, tailLetters: string) {
    exists head: string, tail: seq<string> :: TaggedParse(s, head, tail, headLetters, tailLetters)
  }

  /** `s` is the entry `head` followed by the comma-led entries `tail`, each well formed. */
  predicate TaggedParse(s: string, head: string, tail: seq<string>, headLetters: string, tailLetters: string) {
    && ListText(',', head, tail) == s
    && TaggedField(head, 0, headLetters)
    && forall i :: 0 <= i < |tail| ==> TaggedField(tail[i], 1, tailLetters)
  }

  /** A tagged field never contains a comma. */
  lemma FieldHasNoComma(f: string, minDigits: nat, letters: string)
    requires TagLetters(letters) && TaggedField(f, minDigits, letters)
    ensures ',' !in f
  {
  }

  /**
   The recogniser: cut the string at its commas and check the first part
   against the head entry and every later part against a tail entry.
   */
  function TaggedList(s: string, headLetters: string, tailLetters: string): (r: bool)
    requires TagLetters(headLetters) && TagLetters(tailLetters)
    ensures r <==> TaggedListSpec(s, headLetters, tailLetters)
  {
    var parts := Split(s, ',');
    var r := TaggedField(parts[0], 0, headLetters) && forall i | 1 <= i < |parts| :: TaggedField(parts[i], 1, tailLetters);
    TaggedListCorrect(s, headLetters, tailLetters);
    r
  }

  lemma TaggedListCorrect(s: string, headLetters: string, tailLetters: string)
    requires TagLetters(headLetters) && TagLetters(tailLetters)
    ensures var parts := Split(s, ',');
            (TaggedField(parts[0], 0, headLetters) && forall i | 1 <= i < |parts| :: TaggedField(parts[i], 1, tailLetters))
            <==> TaggedListSpec(s, headLetters, tailLetters)
  {
    var parts := Split(s, ',');
    if TaggedField(parts[0], 0, headLetters) && forall i | 1 <= i < |parts| :: TaggedField(parts[i], 1, tailLetters) {
      PartsAreParse(s, headLetters, tailLetters);
    }
    if TaggedListSpec(s, headLetters, tailLetters) {
      var head, tail :| TaggedParse(s, head, tail, headLetters, tailLetters);
      ParseIsParts(s, head, tail, headLetters, tailLetters);
    }
  }

  /** Well-formed comma-separated parts are a parse of the list. */
  lemma PartsAreParse(s: string, headLetters: string, tailLetters: string)
    requires var parts := Split(s, ',');
             TaggedField(parts[0], 0, headLetters) && forall i | 1 <= i < |parts| :: TaggedField(parts[i], 1, tailLetters)
    ensures TaggedListSpec(s, headLetters, tailLetters)
  {
    var parts := Split(s, ',');
    JoinSplit(s, ',');
    var tail := parts[1..];
    assert ListText(',', parts[0], tail) == s;
    forall i | 0 <= i < |tail| ensures TaggedField(tail[i], 1, tailLetters) {
      assert tail[i] == parts[i+1];
    }
    assert TaggedParse(s, parts[0], tail, headLetters, tailLetters);
  }

  /** The entries of a parse are exactly the comma-separated parts. */
  lemma ParseIsParts(s: string, head: string, tail: seq<string>, headLetters: string, tailLetters: string)
    requires TagLetters(headLetters) && TagLetters(tailLetters)
    requires TaggedParse(s, head, tail, headLetters, tailLetters)
    ensures Split(s, ',') == [head] + tail
  {
    var all := [head] + tail;
    assert SepFree(',', all) by {
      forall i | 0 <= i < |all| ensures ',' !in all[i] {
        if i == 0 {
          FieldHasNoComma(head, 0, headLetters);
        } else {
          assert all[i] == tail[i-1];
          FieldHasNoComma(tail[i-1], 1, tailLetters);
        }
      }
    }
    ListIsJoin(',', head, tail);
    SplitJoin(',', all);
  }

  /** `goodint` (J_IPX800.js:25-29), `^[0-9]+$`: one tag-less field of at least one digit. */
  function GoodInt(s: string): (r: bool)
    ensures r <==> IsDigitRun(s)
  {
    TaggedField(s, 1, "")
  }

  /** `goodcsv` (J_IPX800.js:30-34). */
  function GoodCsv(s: string): (r: bool)
    ensures r <==> TaggedListSpec(s, "", "")
  {
    TaggedList(s, "", "")
  }

  /** `goodcsvinput` (J_IPX800.js:41-45). */
  function GoodCsvInput(s: string): (r: bool)
    ensures r <==> TaggedListSpec(s, "PDM", "PDM")
  {
    TaggedList(s, "PDM", "PDM")
  }

  /** `goodcsvanalog` (J_IPX800.js:46-50). */
  function GoodCsvAnalog(s: string): (r: bool)
    ensures r <==> TaggedListSpec(s, "TL", "TLH")
  {
    TaggedList(s, "TL", "TLH")
  }

  /**
   The rule a single character of an accepted list obeys: a digit anywhere;
   a comma only when a digit follows; a tag letter only at the end or before a
   comma, from the head set before the first comma and from the tail set after it.
   */
  predicate CharOk(s: string, i: int, headLetters: string, tailLetters: string)
    requires 0 <= i < |s|
  {
    if IsDigit(s[i]) then true
    else if s[i] == ',' then i + 1 < |s| && IsDigit(s[i+1])
    else (i + 1 == |s| || s[i+1] == ',') && MatchesLetter(s[i], if ',' in s[..i] then tailLetters else headLetters)
  }

  predicate AllCharsOk(s: string, headLetters: string, tailLetters: string) {
    forall i :: 0 <= i < |s| ==> CharOk(s, i, headLetters, tailLetters)
  }

  /**
   The list patterns read character by character: a string is accepted iff
   every character obeys `CharOk`.
   */
  lemma TaggedListByCharacters(s: string, headLetters: string, tailLetters: string)
    requires TagLetters(headLetters) && TagLetters(tailLetters)
    ensures TaggedList(s, headLetters, tailLetters) <==> AllCharsOk(s, headLetters, tailLetters)
  {
    if TaggedListSpec(s, headLetters, tailLetters) {
      var head, tail :| TaggedParse(s, head, tail, headLetters, tailLetters);
      SpecCharsOk(head, tail, headLetters, tailLetters);
    }
    if AllCharsOk(s, headLetters, tailLetters) {
      CharsOkSpec(s, headLetters, tailLetters);
    }
  }

  /** A head entry on its own obeys the character rule. */
  lemma HeadCharsOk(head: string, headLetters: string, tailLetters: string)
    requires TagLetters(headLetters) && TaggedField(head, 0, headLetters)
    ensures AllCharsOk(head, headLetters, tailLetters)
  {
    FieldHasNoComma(head, 0, headLetters);
    forall i | 0 <= i < |head| ensures CharOk(head, i, headLetters, tailLetters) {
      assert ',' !in head[..i];
      if !IsDigit(head[i]) {
        assert !AllDigits(head);
      }
    }
  }

  /** Adding one comma-led tail entry keeps the character rule. */
  lemma SnocCharsOk(s: string, t: string, headLetters: string, tailLetters: string)
    requires TagLetters(tailLetters) && TaggedField(t, 1, tailLetters)
    requires AllCharsOk(s, headLetters, tailLetters)
    ensures AllCharsOk(s + [','] + t, headLetters, tailLetters)
  {
    var s' := s + [','] + t;
    FieldHasNoComma(t, 1, tailLetters);
    assert IsDigit(t[0]) by {
      if !AllDigits(t) { assert t[0] == t[..|t|-1][0]; }
    }
    forall i | 0 <= i < |s'| ensures CharOk(s', i, headLetters, tailLetters) {
      if i < |s| {
        assert CharOk(s, i, headLetters, tailLetters);
        assert s'[..i] == s[..i];
        assert s'[i] == s[i];
        if i + 1 < |s| { assert s'[i+1] == s[i+1]; }
      } else if i > |s| {
        var k := i - |s| - 1;
        assert s'[i] == t[k];
        assert s'[..i][|s|] == ',';
        if !IsDigit(t[k]) {
          assert !AllDigits(t);
        }
      }
    }
  }

  lemma {:induction false} SpecCharsOk(head: string, tail: seq<string>, headLetters: string, tailLetters: string)
    requires TagLetters(headLetters) && TagLetters(tailLetters)
    requires TaggedField(head, 0, headLetters)
    requires forall i :: 0 <= i < |tail| ==> TaggedField(tail[i], 1, tailLetters)
    ensures AllCharsOk(ListText(',', head, tail), headLetters, tailLetters)
    decreases |tail|
  {
    if tail == [] {
      assert ListText(',', head, tail) == head;
      HeadCharsOk(head, headLetters, tailLetters);
    } else {
      var init := tail[..|tail|-1];
      var t := tail[|tail|-1];
      SpecCharsOk(head, init, headLetters, tailLetters);
      SepGroupsSnoc(',', init, t);
      assert tail == init + [t];
      assert ListText(',', head, tail) == ListText(',', head, init) + [','] + t;
      SnocCharsOk(ListText(',', head, init), t, headLetters, tailLetters);
    }
  }

  /** A comma-free string obeying the character rule is a head entry. */
  lemma CommaFreeIsHead(s: string, headLetters: string, tailLetters: string)
    requires TagLetters(headLetters) && TagLetters(tailLetters)
    requires ',' !in s && AllCharsOk(s, headLetters, tailLetters)
    ensures TaggedField(s, 0, headLetters)
  {
    if !AllDigits(s) {
      var i :| 0 <= i < |s| && !IsDigit(s[i]);
      assert CharOk(s, i, headLetters, tailLetters);
      assert i == |s| - 1;
      assert ',' !in s[..i];
      forall j | 0 <= j < |s| - 1 ensures IsDigit(s[j]) {
        assert CharOk(s, j, headLetters, tailLetters);
      }
      assert AllDigits(s[..|s|-1]);
    }
  }

  /** The part after the last comma of a string obeying the character rule is a tail entry. */
  lemma LastPartIsTail(s: string, j: int, headLetters: string, tailLetters: string)
    requires TagLetters(headLetters) && TagLetters(tailLetters)
    requires 0 <= j < |s| && s[j] == ',' && ',' !in s[j+1..]
    requires AllCharsOk(s, headLetters, tailLetters)
    ensures TaggedField(s[j+1..], 1, tailLetters)
  {
    var t := s[j+1..];
    assert CharOk(s, j, headLetters, tailLetters);
    assert |t| >= 1 && IsDigit(t[0]);
    if !AllDigits(t) {
      var k :| 0 <= k < |t| && !IsDigit(t[k]);
      var i := j + 1 + k;
      assert s[i] == t[k];
      assert CharOk(s, i, headLetters, tailLetters);
      assert s[..i][j] == ',';
      assert k == |t| - 1;
      forall m | 0 <= m < |t| - 1 ensures IsDigit(t[m]) {
        assert CharOk(s, j + 1 + m, headLetters, tailLetters);
        assert s[j + 1 + m] == t[m];
      }
      assert AllDigits(t[..|t|-1]);
    }
  }

  /** Cutting at the last comma keeps the character rule for the front part. */
  lemma FrontCharsOk(s: string, j: int, headLetters: string, tailLetters: string)
    requires 0 <= j < |s| && s[j] == ','
    requires AllCharsOk(s, headLetters, tailLetters)
    ensures AllCharsOk(s[..j], headLetters, tailLetters)
  {
    var f := s[..j];
    forall i | 0 <= i < |f| ensures CharOk(f, i, headLetters, tailLetters) {
      assert CharOk(s, i, headLetters, tailLetters);
      assert f[..i] == s[..i];
      if i + 1 < |f| { assert f[i+1] == s[i+1]; }
    }
  }

  lemma {:induction false} CharsOkSpec(s: string, headLetters: string, tailLetters: string)
    requires TagLetters(headLetters) && TagLetters(tailLetters)
    requires AllCharsOk(s, headLetters, tailLetters)
    ensures TaggedListSpec(s, headLetters, tailLetters)
    decreases |s|
  {
    var j := LastIndex(s, ',');
    if j < 0 {
      assert ',' !in s;
      CommaFreeIsHead(s, headLetters, tailLetters);
      HeadAccepted(s, headLetters, tailLetters);
    } else {
      assert ',' !in s[j+1..];
      FrontCharsOk(s, j, headLetters, tailLetters);
      CharsOkSpec(s[..j], headLetters, tailLetters);
      LastPartIsTail(s, j, headLetters, tailLetters);
      assert s == s[..j] + [','] + s[j+1..];
      SpecSnoc(s[..j], s[j+1..], headLetters, tailLetters);
    }
  }

  /** Adding one comma-led tail entry to an accepted list gives an accepted list. */
  lemma SpecSnoc(s: string, t: string, headLetters: string, tailLetters: string)
    requires TaggedListSpec(s, headLetters, tailLetters)
    requires TaggedField(t, 1, tailLetters)
    ensures TaggedListSpec(s + [','] + t, headLetters, tailLetters)
  {
    var head, tail :| TaggedParse(s, head, tail, headLetters, tailLetters);
    var tail' := tail + [t];
    ListTextSnoc(',', head, tail, t);
    forall i | 0 <= i < |tail'| ensures TaggedField(tail'[i], 1, tailLetters) {
      if i < |tail| { assert tail'[i] == tail[i]; }
    }
    assert TaggedParse(s + [','] + t, head, tail', headLetters, tailLetters);
  }

  /** `goodint` accepts exactly the non-empty, comma-free strings `goodcsv` accepts. */
  lemma GoodIntIsOneCsvEntry(s: string)
    ensures GoodInt(s) <==> (s != [] && ',' !in s && GoodCsv(s))
  {
    TaggedListByCharacters(s, "", "");
    if s != [] && ',' !in s && GoodCsv(s) {
      forall i | 0 <= i < |s| ensures IsDigit(s[i]) {
        assert CharOk(s, i, "", "");
      }
    }
    if GoodInt(s) {
      forall i | 0 <= i < |s| ensures CharOk(s, i, "", "") {
        assert IsDigit(s[i]);
      }
    }
  }

  /**
   `goodcsv` read character by character: only digits and commas, and every
   comma immediately followed by a digit.
   */
  lemma GoodCsvByCharacters(s: string)
    ensures GoodCsv(s) <==>
      && (forall i :: 0 <= i < |s| ==> IsDigit(s[i]) || s[i] == ',')
      && (forall i :: 0 <= i < |s| && s[i] == ',' ==> i + 1 < |s| && IsDigit(s[i+1]))
  {
    TaggedListByCharacters(s, "", "");
    if GoodCsv(s) {
      forall i | 0 <= i < |s| ensures IsDigit(s[i]) || s[i] == ',' {
        assert CharOk(s, i, "", "");
      }
      forall i | 0 <= i < |s| && s[i] == ',' ensures i + 1 < |s| && IsDigit(s[i+1]) {
        assert CharOk(s, i, "", "");
      }
    }
  }

  /** A comma-free string is accepted iff it is a valid head entry on its own. */
  lemma CommaFreeList(s: string, headLetters: string, tailLetters: string)
    requires TagLetters(headLetters) && TagLetters(tailLetters)
    requires ',' !in s
    ensures TaggedList(s, headLetters, tailLetters) <==> TaggedField(s, 0, headLetters)
  {
    if TaggedListSpec(s, headLetters, tailLetters) {
      var head, tail :| TaggedParse(s, head, tail, headLetters, tailLetters);
      FieldHasNoComma(head, 0, headLetters);
      SepInListText(',', head, tail);
      assert tail == [];
      assert s == head;
    }
    if TaggedField(s, 0, headLetters) {
      HeadAccepted(s, headLetters, tailLetters);
    }
  }

  /** A head entry on its own is an accepted list. */
  lemma HeadAccepted(f: string, headLetters: string, tailLetters: string)
    requires TaggedField(f, 0, headLetters)
    ensures TaggedListSpec(f, headLetters, tailLetters)
  {
    assert ListText(',', f, []) == f;
    assert TaggedParse(f, f, [], headLetters, tailLetters);
  }

  /** The examples of the `goodcsv` pattern: empty and comma-first lists pass. */
  lemma GoodCsvExamples()
    ensures GoodCsv("") && GoodCsv(",1") && GoodCsv("1,5,6")
  {
    HeadAccepted("", "", "");
    SpecSnoc("", "1", "", "");
    assert "" + [','] + "1" == ",1";
    HeadAccepted("1", "", "");
    SpecSnoc("1", "5", "", "");
    assert "1" + [','] + "5" == "1,5";
    SpecSnoc("1,5", "6", "", "");
    assert "1,5" + [','] + "6" == "1,5,6";
  }

  /** Trailing or doubled commas do not pass. */
  lemma GoodCsvRejects()
    ensures !GoodCsv("1,") && !GoodCsv("1,,2")
  {
    GoodCsvByCharacters("1,");
    assert "1,"[1] == ',';
    GoodCsvByCharacters("1,,2");
    assert "1,,2"[1] == ',' && !IsDigit("1,,2"[2]);
  }

  /** The digital-input examples without tags. */
  lemma GoodCsvInputPlainExamples()
    ensures GoodCsvInput("") && GoodCsvInput("1,2")
  {
    HeadAccepted("", "PDM", "PDM");
    HeadAccepted("1", "PDM", "PDM");
    SpecSnoc("1", "2", "PDM", "PDM");
    assert "1" + [','] + "2" == "1,2";
  }

  /** The digital-input examples with a tag, in either case and on a digit-less first entry. */
  lemma GoodCsvInputTaggedExamples()
    ensures GoodCsvInput("P") && GoodCsvInput("1p")
  {
    assert TaggedField("P", 0, "PDM") by { assert "P"[..0] == []; }
    HeadAccepted("P", "PDM", "PDM");
    assert TaggedField("1p", 0, "PDM") by { assert "1p"[..1] == "1"; }
    HeadAccepted("1p", "PDM", "PDM");
  }

  /** The digital-input list example: every entry may carry its own tag. */
  lemma GoodCsvInputTaggedList()
    ensures GoodCsvInput("1P,2M")
  {
    assert TaggedField("1P", 0, "PDM") by { assert "1P"[..1] == "1"; }
    assert TaggedField("2M", 1, "PDM") by { assert "2M"[..1] == "2"; }
    HeadAccepted("1P", "PDM", "PDM");
    SpecSnoc("1P", "2M", "PDM", "PDM");
    assert "1P" + [','] + "2M" == "1P,2M";
  }

  /** A tag letter outside P, D and M is refused. */
  lemma UnknownTagRejected()
    ensures !GoodCsvInput("1X")
  {
    assert !TaggedField("1X", 0, "PDM") by {
      assert !IsDigit("1X"[1]);
      assert !MatchesLetter('X', "PDM");
    }
    CommaFreeList("1X", "PDM", "PDM");
  }

  /** At most one tag letter per entry. */
  lemma DoubleTagRejected()
    ensures !GoodCsvInput("1PP")
  {
    assert !TaggedField("1PP", 0, "PDM") by {
      assert !IsDigit("1PP"[2]);
      assert "1PP"[..2][1] == 'P';
    }
    CommaFreeList("1PP", "PDM", "PDM");
  }

  /** The analog examples: the first entry takes T or L. */
  lemma GoodCsvAnalogExamples()
    ensures GoodCsvAnalog("")
    ensures GoodCsvAnalog("1T,2L")
  {
    assert GoodCsvAnalog("") by { HeadAccepted("", "TL", "TLH"); }
    assert GoodCsvAnalog("1T,2L") by {
      assert TaggedField("1T", 0, "TL") by { assert "1T"[..1] == "1"; }
      assert TaggedField("2L", 1, "TLH") by { assert "2L"[..1] == "2"; }
      HeadAccepted("1T", "TL", "TLH");
      SpecSnoc("1T", "2L", "TL", "TLH");
      assert "1T" + [','] + "2L" == "1T,2L";
    }
  }

  /** A later entry may also carry `H`. */
  lemma GoodCsvAnalogLaterH()
    ensures GoodCsvAnalog("1,2H")
  {
    assert TaggedField("2H", 1, "TLH") by { assert "2H"[..1] == "2"; }
    HeadAccepted("1", "TL", "TLH");
    SpecSnoc("1", "2H", "TL", "TLH");
    assert "1" + [','] + "2H" == "1,2H";
  }

  /** Tags are matched in either case. */
  lemma GoodCsvAnalogLowerCase()
    ensures GoodCsvAnalog("1,2h")
  {
    assert TaggedField("2h", 1, "TLH") by { assert "2h"[..1] == "2"; }
    HeadAccepted("1", "TL", "TLH");
    SpecSnoc("1", "2h", "TL", "TLH");
    assert "1" + [','] + "2h" == "1,2h";
  }

  /** `H` is not a first-entry tag. */
  lemma GoodCsvAnalogRejectsHeadH()
    ensures !GoodCsvAnalog("1H")
  {
    CommaFreeList("1H", "TL", "TLH");
    assert "1H"[..1] == "1";
  }

  /** A first-entry `H` tag is refused whatever digits precede it, a later one is accepted. */
  lemma AnalogHeadRefusesH(ds: string, rest: string)
    requires AllDigits(ds) && GoodCsvAnalog(rest)
    ensures !GoodCsvAnalog(ds + "H")
    ensures GoodCsvAnalog(rest + "," + ds + "1H")
  {
    AnalogHeadH(ds);
    AnalogTailH(ds, rest, ds + "1H");
  }

  lemma AnalogHeadH(ds: string)
    requires AllDigits(ds)
    ensures !GoodCsvAnalog(ds + "H")
  {
    assert ',' !in ds + "H" by {
      assert forall i :: 0 <= i < |ds| ==> (ds + "H")[i] == ds[i];
    }
    CommaFreeList(ds + "H", "TL", "TLH");
  }

  lemma AnalogTailH(ds: string, rest: string, t: string)
    requires AllDigits(ds) && GoodCsvAnalog(rest) && t == ds + "1H"
    ensures GoodCsvAnalog(rest + "," + ds + "1H")
  {
    assert t[..|t|-1] == ds + "1";
    assert TaggedField(t, 1, "TLH");
    SpecSnoc(rest, t, "TL", "TLH");
    assert rest + [','] + t == rest + "," + ds + "1H";
  }
}
