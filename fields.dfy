/**
 * Field normalisation: the packed publication date (`convert_date`, with the
 * table `month_xlate`) and the author-name heuristic (`convert_author_style`).
 */
module Fields {
  import opened Wrappers
  import opened Text

  /** What the script raises while building or printing an entry. */
  datatype Failure =
    | EmptyAuthorChunk          // `pieces[-1]` on a blank author chunk: IndexError
    | NullAuthorString          // `None.replace(...)`: AttributeError
    | NullFieldValue(name: string)  // `None.encode(...)` while printing: AttributeError
    | MissingField(name: string)    // `info[name]` on a dictionary without that key: KeyError

  /** `month_xlate`: two-digit month code to its BibTeX abbreviation. */
  const MonthXlate: map<string, string> := map[
    "01" := "jan", "02" := "feb", "03" := "mar", "04" := "apr",
    "05" := "may", "06" := "jun", "07" := "jul", "08" := "aug",
    "09" := "sep", "10" := "oct", "11" := "nov", "12" := "dec"]

  /** The month abbreviations in calendar order, an independent statement of the table. */
  const MonthNames: seq<string> := ["jan", "feb", "mar", "apr", "may", "jun", "jul", "aug", "sep", "oct", "nov", "dec"]

  /** The month and year that `convert_date` returns; either may be empty. */
  datatype Date = Date(month: string, year: string)

  /** Python slicing `s[a:b]` for `0 <= a <= b`: both bounds are clamped to the length, nothing raises. */
  function Slice(s: string, a: nat, b: nat): string
    requires a <= b
  {
    if |s| <= a then "" else if |s| <= b then s[a..] else s[a..b]
  }

  predicate IsDigit(c: char) {
    '0' <= c <= '9'
  }

  function DigitValue(c: char): nat
    requires IsDigit(c)
  {
    c as int - '0' as int
  }

  /** A two-character slot that reads as a month number from 1 to 12. */
  predicate IsMonthSlot(slot: string) {
    |slot| == 2 && IsDigit(slot[0]) && IsDigit(slot[1]) &&
    1 <= 10 * DigitValue(slot[0]) + DigitValue(slot[1]) <= 12
  }

  function MonthNumber(slot: string): nat
    requires IsMonthSlot(slot)
  {
    10 * DigitValue(slot[0]) + DigitValue(slot[1])
  }

  /**
   * `convert_date` with its default offsets: the month is the slot
   * `pub_date[6:8]` looked up in `month_xlate` (`''` when missing), the year
   * the slice `pub_date[2:6]`. A NULL date makes both slices raise; both are
   * caught and give `''`.
   */
  function ConvertDate(pubDate: Option<string>): (r: Date)
    ensures |r.year| <= 4
    ensures pubDate.None? ==> r == Date("", "")
  {
    match pubDate
    case None => Date("", "")
    case Some(d) =>
      var slot := Slice(d, 6, 8);
      Date(if slot in MonthXlate then MonthXlate[slot] else "", Slice(d, 2, 6))
  }

  /** The table agrees with the calendar: a slot is a key exactly when it reads as 1..12, and names that month. */
  lemma MonthTable(slot: string)
    ensures slot in MonthXlate <==> IsMonthSlot(slot)
    ensures slot in MonthXlate ==> MonthXlate[slot] == MonthNames[MonthNumber(slot) - 1]
  {
    if IsMonthSlot(slot) {
      var d0, d1 := slot[0], slot[1];
      assert slot == [d0, d1];
      assert d0 == '0' || d0 == '1';
    }
  }

  /**
   * The year is `pub_date[2:6]`: at most four characters, the full slot when
   * the code is long enough, a shorter or empty string otherwise.
   */
  lemma DateYear(d: string)
    ensures var y := ConvertDate(Some(d)).year;
      && |y| == (if |d| >= 6 then 4 else if |d| > 2 then |d| - 2 else 0)
      && (|d| > 2 ==> y == d[2..2 + |y|])
  {
  }

  /**
   * The month is present exactly when characters 6 and 7 read as a month
   * number, and is then that month's name; otherwise it is `''`.
   */
  lemma DateMonth(d: string)
    ensures var m := ConvertDate(Some(d)).month;
      && (m != "" <==> |d| >= 8 && IsMonthSlot(d[6..8]))
      && (m != "" ==> m == MonthNames[MonthNumber(d[6..8]) - 1])
  {
    var slot := Slice(d, 6, 8);
    MonthTable(slot);
    if |d| >= 8 {
      assert slot == d[6..8];
    } else {
      assert !IsMonthSlot(slot);
    }
  }

  /** The packed code from a Papers2 library reads as June 2004. */
  lemma DateExample()
    ensures ConvertDate(Some("99200406011200000000222000")) == Date("jun", "2004")
  {
    var d := "99200406011200000000222000";
    assert d[6..8] == "06";
    assert d[2] == '2' && d[3] == '0' && d[4] == '0' && d[5] == '4';
    assert d[2..6] == "2004";
  }

  /** The author chunks: the string with every `and` deleted (inside names too), split on commas. */
  function Chunks(authorString: string): seq<string> {
    Split(Replace(authorString, "and", ""), ',')
  }

  /**
   * One chunk in "Last, Rest" order: the last token between `unicode` whitespace, a comma and a
   * space, then the other tokens joined by single spaces. `None` when the
   * chunk holds no token, where `pieces[-1]` raises.
   */
  function SwapName(chunk: string): Option<string> {
    var pieces := Words(UnicodeString, Strip(UnicodeString, chunk));
    if pieces == [] then None
    else Some(pieces[|pieces| - 1] + ", " + Join(pieces[..|pieces| - 1], " "))
  }

  /** The chunks in order, each swapped; the first chunk without a token raises. */
  function SwapNames(chunks: seq<string>): (r: Result<seq<string>, Failure>)
    ensures r.Err? <==> exists i :: 0 <= i < |chunks| && SwapName(chunks[i]).None?
    ensures r.Err? ==> r.error == EmptyAuthorChunk
    ensures r.Ok? ==> |r.value| == |chunks| && forall i :: 0 <= i < |chunks| ==> SwapName(chunks[i]) == Some(r.value[i])
  {
    if chunks == [] then Ok([])
    else
      var init := chunks[..|chunks| - 1];
      assert forall i :: 0 <= i < |init| ==> init[i] == chunks[i];
      match SwapNames(init)
      case Err(e) => Err(e)
      case Ok(done) =>
        match SwapName(chunks[|chunks| - 1])
        case None => Err(EmptyAuthorChunk)
        case Some(name) => Ok(done + [name])
  }

  /** `convert_author_style`: only the `"default"` style rewrites the string. */
  function AuthorStyle(authorString: string, style: string): (r: Result<string, Failure>)
    ensures style != "default" ==> r == Ok(authorString)
    ensures r.Err? ==> r.error == EmptyAuthorChunk
  {
    if style == "default" then
      match SwapNames(Chunks(authorString))
      case Err(e) => Err(e)
      case Ok(mangled) => Ok(Join(mangled, " and "))
    else Ok(authorString)
  }

  /** `convert_author_style(author_string, style)`, appending one swapped name per chunk. */
  method ConvertAuthorStyle(authorString: string, style: string) returns (r: Result<string, Failure>)
    ensures r == AuthorStyle(authorString, style)
  {
    if style == "default" {
      var authors := Split(Replace(authorString, "and", ""), ',');
      var mangled: seq<string> := [];
      for i := 0 to |authors|
        invariant SwapNames(authors[..i]) == Ok(mangled)
      {
        var pieces := Words(UnicodeString, Strip(UnicodeString, authors[i]));
        SwapNamesStep(authors, i, mangled);
        if |pieces| == 0 {
          SwapNamesFailAt(authors, i);
          return Err(EmptyAuthorChunk);
        }
        var lastname := pieces[|pieces| - 1];
        var rest := Join(pieces[..|pieces| - 1], " ");
        mangled := mangled + [lastname + ", " + rest];
      }
      assert authors[..|authors|] == authors;
      r := Ok(Join(mangled, " and "));
    } else {
      r := Ok(authorString);
    }
  }

  /** One more chunk either fails the whole list or appends its swapped name. */
  lemma SwapNamesStep(chunks: seq<string>, i: nat, done: seq<string>)
    requires i < |chunks| && SwapNames(chunks[..i]) == Ok(done)
    ensures SwapNames(chunks[..i + 1]) ==
      match SwapName(chunks[i])
      case None => Err(EmptyAuthorChunk)
      case Some(name) => Ok(done + [name])
  {
    assert chunks[..i + 1][..i] == chunks[..i];
  }

  lemma SwapNamesFailAt(chunks: seq<string>, i: nat)
    requires i < |chunks| && SwapName(chunks[i]).None?
    ensures SwapNames(chunks) == Err(EmptyAuthorChunk)
  {
  }

  /** A chunk cannot be swapped exactly when it is blank. */
  lemma SwapNameNone(chunk: string)
    ensures SwapName(chunk).None? <==> AllSpace(UnicodeString, chunk)
  {
    StripEmpty(UnicodeString, chunk);
    WordsEmpty(UnicodeString, Strip(UnicodeString, chunk));
    var t := Strip(UnicodeString, chunk);
    if t != [] {
      assert !IsSpace(UnicodeString, t[0]);
    }
  }

  /** The default style fails exactly when some chunk (after deleting `and`) is blank. */
  lemma AuthorStyleFails(authorString: string)
    ensures AuthorStyle(authorString, "default").Err? <==>
      exists i :: 0 <= i < |Chunks(authorString)| && AllSpace(UnicodeString, Chunks(authorString)[i])
  {
    var cs := Chunks(authorString);
    forall i | 0 <= i < |cs| ensures SwapName(cs[i]).None? <==> AllSpace(UnicodeString, cs[i]) {
      SwapNameNone(cs[i]);
    }
  }

  /**
   * Swapping keeps every token of the chunk: splitting the result on
   * whitespace gives the surname with a comma attached, then the other
   * tokens in their original order.
   */
  lemma SwapNameTokens(chunk: string)
    requires SwapName(chunk).Some?
    ensures var pieces := Words(UnicodeString, Strip(UnicodeString, chunk));
      Words(UnicodeString, SwapName(chunk).value) == [pieces[|pieces| - 1] + ","] + pieces[..|pieces| - 1]
  {
    var pieces := Words(UnicodeString, Strip(UnicodeString, chunk));
    var last, init := pieces[|pieces| - 1], pieces[..|pieces| - 1];
    var j := Join(init, " ");
    WordsShape(UnicodeString, Strip(UnicodeString, chunk));
    assert SwapName(chunk).value == (last + ",") + " " + j;
    WordsCons(UnicodeString, last + ",", ' ', j);
    WordsJoin(UnicodeString, init);
  }

  // Worked examples of `convert_author_style`.

  /** Two comma-separated names without an `a` split into two chunks. */
  lemma ChunksPair(a: string, b: string)
    requires 'a' !in a && 'a' !in b && ',' !in a && ',' !in b
    ensures Chunks(a + [','] + b) == [a, b]
  {
    var s := a + [','] + b;
    assert 'a' !in s;
    ReplaceKeep(s, "", "and", "");
    assert s + "" == s;
    SplitFirst(a, b, ',');
    SplitNone(b, ',');
  }

  /** A chunk holding one word, possibly after a space, becomes that word, a comma and a space. */
  lemma SwapOneWord(w: string)
    requires w != [] && NoSpace(UnicodeString, w)
    ensures SwapName(w) == Some(w + ", ")
    ensures SwapName([' '] + w) == Some(w + ", ")
  {
    WordsJoin(UnicodeString, [w]);
    assert Join([w], " ") == w;
    assert Strip(UnicodeString, w) == w;
    var t := [' '] + w;
    assert SkipSpace(UnicodeString, t, 1) == 1;
    assert SkipSpace(UnicodeString, t, 0) == 1;
    assert BackSpace(UnicodeString, t, 1, |t|) == |t|;
    assert t[1..|t|] == w;
    assert [w][..0] == [];
    assert w + ", " + "" == w + ", ";
  }

  lemma SwapNamesPair(c1: string, c2: string)
    requires SwapName(c1).Some? && SwapName(c2).Some?
    ensures SwapNames([c1, c2]) == Ok([SwapName(c1).value, SwapName(c2).value])
  {
    var cs := [c1, c2];
    var r := SwapNames(cs);
    assert SwapName(cs[0]).Some? && SwapName(cs[1]).Some?;
    assert r.Ok?;
    assert r.value[0] == SwapName(c1).value;
    assert r.value[1] == SwapName(c2).value;
    assert |r.value| == 2;
    assert r.value == [r.value[0], r.value[1]];
  }

  lemma JoinPair(a: string, b: string, sep: string)
    ensures Join([a, b], sep) == a + sep + b
  {
    assert [a, b][1..] == [b];
  }

  /** A surname followed by a comma and a one-word given name. */
  lemma SurnameFirstPair(sur: string, given: string)
    requires sur != [] && NoSpace(UnicodeString, sur) && given != [] && NoSpace(UnicodeString, given)
    requires 'a' !in sur && 'a' !in given && ',' !in sur && ',' !in given
    ensures AuthorStyle(sur + ", " + given, "default") == Ok(sur + ", " + " and " + given + ", ")
  {
    var g := [' '] + given;
    var s := sur + ", " + given;
    assert Chunks(s) == [sur, g] by {
      assert s == sur + [','] + g;
      ChunksPair(sur, g);
    }
    assert SwapNames([sur, g]) == Ok([sur + ", ", given + ", "]) by {
      SwapOneWord(sur);
      SwapOneWord(given);
      SwapNamesPair(sur, g);
    }
    assert Join([sur + ", ", given + ", "], " and ") == sur + ", " + " and " + given + ", " by {
      JoinPair(sur + ", ", given + ", ", " and ");
    }
  }

  lemma ExampleSurnameFirst()
    ensures AuthorStyle("Proudfoot, Nick", "default") == Ok("Proudfoot,  and Nick, ")
  {
    assert "Proudfoot" + ", " + "Nick" == "Proudfoot, Nick";
    assert "Proudfoot" + ", " + " and " + "Nick" + ", " == "Proudfoot,  and Nick, ";
    SurnameFirstPair("Proudfoot", "Nick");
  }

  /** A chunk of two words separated by one whitespace character: the last word moves to the front. */
  lemma TwoWordChunk(first: string, sep: char, last: string)
    requires first != [] && NoSpace(UnicodeString, first) && last != [] && NoSpace(UnicodeString, last)
    requires IsSpace(UnicodeString, sep)
    ensures SwapName(first + [sep] + last) == Some(last + ", " + first)
  {
    var c := first + [sep] + last;
    assert Stripped(UnicodeString, c) by {
      assert c[0] == first[0] && c[|c| - 1] == last[|last| - 1];
    }
    assert Words(UnicodeString, c) == [first, last] by {
      WordsCons(UnicodeString, first, sep, last);
      WordsJoin(UnicodeString, [last]);
      assert Join([last], " ") == last;
    }
    assert [first, last][..1] == [first];
    assert Join([first], " ") == first;
  }

  /** Text free of the pattern's first character, then the pattern: the text is kept and the pattern deleted. */
  lemma DeleteNext(a: string, pat: string, b: string)
    requires pat != [] && pat[0] !in a
    ensures Replace(a + pat + b, pat, "") == a + Replace(b, pat, "")
  {
    assert a + pat + b == a + (pat + b);
    ReplaceKeep(a, pat + b, pat, "");
    ReplaceHit(pat, b, "");
    assert "" + Replace(b, pat, "") == Replace(b, pat, "");
  }

  /** Deleting two occurrences of a pattern from text in which its first character occurs nowhere else. */
  lemma DeleteTwo(p: string, q: string, pat: string)
    requires pat != [] && pat[0] !in p && pat[0] !in q
    ensures Replace(p + pat + q + pat, pat, "") == p + q
  {
    assert p + pat + q + pat == p + pat + (q + pat);
    DeleteNext(p, pat, q + pat);
    assert q + pat == q + pat + "";
    DeleteNext(q, pat, "");
    assert Replace("", pat, "") == "";
  }

  /** A list of one chunk that names somebody swaps that one chunk. */
  lemma SwapNamesSingle(c: string)
    requires SwapName(c).Some?
    ensures SwapNames([c]) == Ok([SwapName(c).value])
  {
    var r := SwapNames([c]);
    assert SwapName([c][0]).Some?;
    assert r.Ok? && |r.value| == 1;
    assert r.value == [r.value[0]];
  }

  /** An author string that is two words, separated by one whitespace character, once every `and` is gone. */
  lemma TwoWordAuthor(s: string, first: string, sep: char, last: string)
    requires first != [] && NoSpace(UnicodeString, first) && last != [] && NoSpace(UnicodeString, last)
    requires ',' !in first && ',' !in last && sep != ',' && IsSpace(UnicodeString, sep)
    requires Replace(s, "and", "") == first + [sep] + last
    ensures AuthorStyle(s, "default") == Ok(last + ", " + first)
  {
    var c := first + [sep] + last;
    assert Chunks(s) == [c] by {
      SplitNone(c, ',');
    }
    assert SwapNames([c]) == Ok([last + ", " + first]) by {
      TwoWordChunk(first, sep, last);
      SwapNamesSingle(c);
    }
  }

  /** Two occurrences of `and` vanish from a string that is two words once they are gone. */
  lemma TwoAndsTwoWords(p: string, q: string, first: string, last: string)
    requires 'a' !in p && 'a' !in q
    requires first != [] && NoSpace(UnicodeString, first) && last != [] && NoSpace(UnicodeString, last)
    requires ',' !in first && ',' !in last
    requires p + q == first + " " + last
    ensures AuthorStyle(p + "and" + q + "and", "default") == Ok(last + ", " + first)
  {
    DeleteTwo(p, q, "and");
    TwoWordAuthor(p + "and" + q + "and", first, ' ', last);
  }

  /**
   * Every `and` is deleted, even inside a name: `"Alexander Grand"` loses
   * both occurrences before the words are swapped.
   */
  lemma ExampleAndInsideName()
    ensures AuthorStyle("Alexander Grand", "default") == Ok("Gr, Alexer")
  {
    assert "Alex" + "and" + "er Gr" + "and" == "Alexander Grand";
    assert "Gr" + ", " + "Alexer" == "Gr, Alexer";
    assert "Alex" + "er Gr" == "Alexer" + " " + "Gr";
    TwoAndsTwoWords("Alex", "er Gr", "Alexer", "Gr");
  }

  /**
   * Author strings are `unicode`, so a no-break space separates words as a
   * space does.
   */
  lemma ExampleNoBreakSpace()
    ensures AuthorStyle("Nick\U{A0}Proudfoot", "default") == Ok("Proudfoot, Nick")
  {
    NoBreakSpaceName();
    ConcatSpellsNickProudfoot();
  }

  /** The pieces `NoBreakSpaceName` is stated with spell out the example's strings. */
  lemma ConcatSpellsNickProudfoot()
    ensures "Nick" + ['\U{A0}'] + "Proudfoot" == "Nick\U{A0}Proudfoot"
    ensures "Proudfoot" + ", " + "Nick" == "Proudfoot, Nick"
  {
  }

  lemma NoBreakSpaceName()
    ensures AuthorStyle("Nick" + ['\U{A0}'] + "Proudfoot", "default") == Ok("Proudfoot" + ", " + "Nick")
  {
    var s := "Nick" + ['\U{A0}'] + "Proudfoot";
    assert 'a' !in s && ',' !in s;
    ReplaceKeep(s, "", "and", "");
    assert s + "" == s;
    NickProudfootWords();
    TwoWordAuthor(s, "Nick", '\U{A0}', "Proudfoot");
  }

  lemma NickProudfootWords()
    ensures NoSpace(UnicodeString, "Nick") && NoSpace(UnicodeString, "Proudfoot")
  {
    PrintableNoSpace(UnicodeString, "Nick");
    PrintableNoSpace(UnicodeString, "Proudfoot");
  }

  /** A chunk that is only a no-break space makes `pieces[-1]` raise. */
  lemma ExampleNoBreakSpaceChunk()
    ensures AuthorStyle("\U{A0}", "default") == Err(EmptyAuthorChunk)
  {
    var s := "\U{A0}";
    ReplaceKeep(s, "", "and", "");
    assert s + "" == s;
    SplitNone(s, ',');
    assert Chunks(s) == [s];
    assert AllSpace(UnicodeString, Chunks(s)[0]);
    AuthorStyleFails(s);
  }

  /**
   * Names are split on commas only: `first and mid last` is one chunk, so
   * only the very last word moves to the front.
   */
  lemma AndInOneChunk(first: string, mid: string, last: string)
    requires first != [] && NoSpace(UnicodeString, first) && 'a' !in first && ',' !in first
    requires mid != [] && NoSpace(UnicodeString, mid) && 'a' !in mid && ',' !in mid
    requires last != [] && NoSpace(UnicodeString, last) && 'a' !in last && ',' !in last
    ensures AuthorStyle(first + " and " + mid + " " + last, "default") == Ok(last + ", " + (first + " " + mid))
  {
    var c := first + [' '] + ([' '] + (mid + [' '] + last));
    AndDeleted(first, mid, last);
    assert ',' !in c;
    SplitNone(c, ',');
    SwapThreeWords(first, mid, last);
    var name := last + ", " + (first + " " + mid);
    SwapNamesSingle(c);
    assert Join([name], " and ") == name;
  }

  /** Deleting the one `and` leaves two spaces between the words around it. */
  lemma AndDeleted(first: string, mid: string, last: string)
    requires 'a' !in first && 'a' !in mid && 'a' !in last
    ensures Replace(first + " and " + mid + " " + last, "and", "") == first + [' '] + ([' '] + (mid + [' '] + last))
  {
    var a := first + " ";
    var b := [' '] + (mid + [' '] + last);
    assert first + " and " + mid + " " + last == a + "and" + b;
    DeleteMiddle(a, b);
    assert a + b == first + [' '] + b;
  }

  /** The only `and` in a string is deleted and nothing else changes. */
  lemma DeleteMiddle(a: string, b: string)
    requires 'a' !in a && 'a' !in b
    ensures Replace(a + "and" + b, "and", "") == a + b
  {
    DeleteNext(a, "and", b);
    ReplaceKeep(b, "", "and", "");
    assert b + "" == b;
  }

  /** The chunk left by `AndDeleted` swaps to its last word, a comma and the other two. */
  lemma SwapThreeWords(first: string, mid: string, last: string)
    requires first != [] && NoSpace(UnicodeString, first)
    requires mid != [] && NoSpace(UnicodeString, mid)
    requires last != [] && NoSpace(UnicodeString, last)
    ensures SwapName(first + [' '] + ([' '] + (mid + [' '] + last))) == Some(last + ", " + (first + " " + mid))
  {
    var c := first + [' '] + ([' '] + (mid + [' '] + last));
    assert Stripped(UnicodeString, c) by {
      assert c[0] == first[0] && c[|c| - 1] == last[|last| - 1];
    }
    ThreeWords(first, mid, last);
    assert [first, mid, last][..2] == [first, mid];
    JoinPair(first, mid, " ");
  }

  /** Three words, the first two separated by two spaces. */
  lemma ThreeWords(first: string, mid: string, last: string)
    requires first != [] && NoSpace(UnicodeString, first)
    requires mid != [] && NoSpace(UnicodeString, mid)
    requires last != [] && NoSpace(UnicodeString, last)
    ensures Words(UnicodeString, first + [' '] + ([' '] + (mid + [' '] + last))) == [first, mid, last]
  {
    var tail := mid + [' '] + last;
    WordsJoin(UnicodeString, [last]);
    assert Join([last], " ") == last;
    WordsCons(UnicodeString, mid, ' ', last);
    WordsSkipSpace(UnicodeString, ' ', tail);
    WordsCons(UnicodeString, first, ' ', [' '] + tail);
  }

  /** `Nick and John Smith` names two people but is one chunk: it becomes `Smith, Nick John`. */
  lemma ExampleOneChunk()
    ensures AuthorStyle("Nick and John Smith", "default") == Ok("Smith, Nick John")
  {
    OneChunkWords();
    AndInOneChunk("Nick", "John", "Smith");
    ConcatSpellsNickJohnSmith();
  }

  /** The pieces `AndInOneChunk` is stated with spell out the example's strings. */
  lemma ConcatSpellsNickJohnSmith()
    ensures "Nick" + " and " + "John" + " " + "Smith" == "Nick and John Smith"
    ensures "Smith" + ", " + ("Nick" + " " + "John") == "Smith, Nick John"
  {
  }

  lemma OneChunkWords()
    ensures NoSpace(UnicodeString, "Nick") && NoSpace(UnicodeString, "John") && NoSpace(UnicodeString, "Smith")
  {
    PrintableNoSpace(UnicodeString, "Nick");
    PrintableNoSpace(UnicodeString, "John");
    PrintableNoSpace(UnicodeString, "Smith");
  }
}
