/**
 * `as_bibtex`: one entry dictionary printed as a BibTeX `@article` block.
 * The header carries the citekey, each other key gives one `key = {value}`
 * line (the title in doubled braces), and the lines are joined by `",\n"`.
 */
module Bibtex {
  import opened Wrappers
  import opened Text
  import opened Fields
  import opened Lookup

  /** `'@article{%s,\n' % citekey`. */
  function Header(citekey: string): string {
    "@article{" + citekey + ",\n"
  }

  /** One field line: the title in doubled braces, every other field in single ones. */
  function FieldLine(key: Field, value: string): string {
    if key == Title then "title = {{" + value + "}}" else Name(key) + " = {" + value + "}"
  }

  /** No key is listed twice. */
  predicate Distinct(order: seq<Field>) {
    forall i, j :: 0 <= i < j < |order| ==> order[i] != order[j]
  }

  /**
   * `order` is the order `for key in info` visits the dictionary in: every
   * key of the dictionary, each once.
   */
  predicate Enumerates(order: seq<Field>, keys: set<Field>) {
    Distinct(order) && (forall k :: k in order ==> k in keys) && (forall k :: k in keys ==> k in order)
  }

  /** The visited keys that give a line: all but `citekey`, in visiting order. */
  function LineKeys(order: seq<Field>): (r: seq<Field>)
    ensures forall k :: k in r ==> k in order && k != Citekey
  {
    if order == [] then []
    else
      var init := LineKeys(order[..|order| - 1]);
      if order[|order| - 1] == Citekey then init else init + [order[|order| - 1]]
  }

  /** The field lines in visiting order, or the failure `.encode` raises on the first NULL value. */
  function FieldLines(info: Entry, order: seq<Field>): Result<seq<string>, Failure>
    requires forall k :: k in order ==> k in info
  {
    if order == [] then Ok([])
    else
      var key := order[|order| - 1];
      match FieldLines(info, order[..|order| - 1])
      case Err(e) => Err(e)
      case Ok(lines) =>
        if key == Citekey then Ok(lines)
        else
          match info[key]
          case None => Err(NullFieldValue(Name(key)))
          case Some(v) => Ok(lines + [FieldLine(key, v)])
  }

  /** What `as_bibtex(info)` returns when it visits the keys in `order`, or the failure it raises. */
  function BibtexEntry(info: Entry, order: seq<Field>): Result<string, Failure>
    requires Enumerates(order, info.Keys)
  {
    if Citekey !in info then Err(MissingField(Name(Citekey)))
    else
      match info[Citekey]
      case None => Err(NullFieldValue(Name(Citekey)))
      case Some(citekey) =>
        match FieldLines(info, order)
        case Err(e) => Err(e)
        case Ok(lines) => Ok(Header(citekey) + Join(lines, ",\n") + "\n}")
  }

  /** `as_bibtex(info)`: the header, then one line per visited key but `citekey`, then the closing brace. */
  method AsBibtex(info: Entry, order: seq<Field>) returns (r: Result<string, Failure>)
    requires Enumerates(order, info.Keys)
    ensures r == BibtexEntry(info, order)
  {
    if Citekey !in info {
      return Err(MissingField(Name(Citekey)));
    }
    if info[Citekey].None? {
      return Err(NullFieldValue(Name(Citekey)));
    }
    var header := Header(info[Citekey].value);
    var result: seq<string> := [];
    for i := 0 to |order|
      invariant FieldLines(info, order[..i]) == Ok(result)
    {
      var key := order[i];
      assert order[..i + 1][..i] == order[..i];
      if key != Citekey {
        var value := info[key];
        if value.None? {
          FieldLinesErrPrefix(info, order[..i + 1], order[i + 1..]);
          assert order[..i + 1] + order[i + 1..] == order;
          return Err(NullFieldValue(Name(key)));
        }
        var add := FieldLine(key, value.value);
        result := result + [add];
      }
    }
    assert order[..|order|] == order;
    r := Ok(header + Join(result, ",\n") + "\n}");
  }

  // Properties of the field lines.

  /** Once a value has failed, later keys change nothing. */
  lemma {:induction false} FieldLinesErrPrefix(info: Entry, a: seq<Field>, b: seq<Field>)
    requires forall k :: k in a + b ==> k in info
    requires FieldLines(info, a).Err?
    ensures FieldLines(info, a + b) == FieldLines(info, a)
    decreases |b|
  {
    if b == [] {
      assert a + b == a;
    } else {
      var b' := b[..|b| - 1];
      assert (a + b)[..|a + b| - 1] == a + b';
      FieldLinesErrPrefix(info, a, b');
    }
  }

  /** `LineKeys` keeps exactly the keys other than `citekey`, in their order. */
  lemma {:induction false} LineKeysMembers(order: seq<Field>)
    ensures forall k :: k in LineKeys(order) <==> k in order && k != Citekey
    ensures Distinct(order) ==> Distinct(LineKeys(order))
    decreases |order|
  {
    if order != [] {
      var init := order[..|order| - 1];
      var last := order[|order| - 1];
      LineKeysMembers(init);
      assert order == init + [last];
      if Distinct(order) {
        assert Distinct(init);
        assert last !in init;
      }
    }
  }

  /**
   * The lines exist exactly when no visited key but `citekey` holds NULL;
   * otherwise the first such key in visiting order is the one reported.
   */
  lemma {:induction false} FieldLinesOk(info: Entry, order: seq<Field>)
    requires forall k :: k in order ==> k in info
    ensures FieldLines(info, order).Ok? <==> forall k :: k in LineKeys(order) ==> info[k].Some?
    ensures FieldLines(info, order).Err? ==>
      exists i :: (0 <= i < |order|
        && order[i] != Citekey && info[order[i]].None?
        && FieldLines(info, order).error == NullFieldValue(Name(order[i]))
        && (forall j :: 0 <= j < i && order[j] != Citekey ==> info[order[j]].Some?))
    decreases |order|
  {
    if order != [] {
      var init := order[..|order| - 1];
      var last := order[|order| - 1];
      FieldLinesOk(info, init);
      LineKeysMembers(init);
      LineKeysMembers(order);
      assert forall i :: 0 <= i < |init| ==> init[i] == order[i];
      if FieldLines(info, init).Ok? && last != Citekey && info[last].None? {
        var i := |order| - 1;
        forall j | 0 <= j < i && order[j] != Citekey
          ensures info[order[j]].Some?
        {
          assert order[j] in LineKeys(init);
        }
      }
    }
  }

  /** Line `i` is the field line of the `i`-th key that gives a line, with that key's value. */
  lemma {:induction false} FieldLinesShape(info: Entry, order: seq<Field>)
    requires forall k :: k in order ==> k in info
    requires FieldLines(info, order).Ok?
    ensures var lines := FieldLines(info, order).value;
      |lines| == |LineKeys(order)|
      && forall i :: 0 <= i < |lines| ==>
        info[LineKeys(order)[i]].Some? && lines[i] == FieldLine(LineKeys(order)[i], info[LineKeys(order)[i]].value)
    decreases |order|
  {
    if order != [] {
      FieldLinesShape(info, order[..|order| - 1]);
    }
  }

  // Properties of the whole block.

  /**
   * Printing succeeds exactly when the dictionary has a citekey and no
   * value at all is NULL.
   */
  lemma BibtexOk(info: Entry, order: seq<Field>)
    requires Enumerates(order, info.Keys)
    ensures BibtexEntry(info, order).Ok? <==> Citekey in info && forall k :: k in info ==> info[k].Some?
  {
    FieldLinesOk(info, order);
    LineKeysMembers(order);
  }

  /**
   * A printed block is the header with the entry's own citekey, then the
   * field lines separated by `",\n"`, then `"\n}"`; there is one line for
   * each key but `citekey`, each key appears in exactly one line, and the
   * number of lines is the number of keys less one.
   */
  lemma BibtexLayout(info: Entry, order: seq<Field>)
    requires Enumerates(order, info.Keys)
    requires BibtexEntry(info, order).Ok?
    ensures Citekey in info && info[Citekey].Some? && FieldLines(info, order).Ok?
    ensures var lines := FieldLines(info, order).value;
      && BibtexEntry(info, order).value == Header(info[Citekey].value) + Join(lines, ",\n") + "\n}"
      && |lines| == |info| - 1 == |LineKeys(order)|
      && (forall k :: k in info ==> info[k].Some?)
      && Citekey !in LineKeys(order) && Distinct(LineKeys(order))
      && (forall k :: k in LineKeys(order) <==> k in info && k != Citekey)
      && (forall i :: 0 <= i < |lines| ==> lines[i] == FieldLine(LineKeys(order)[i], info[LineKeys(order)[i]].value))
  {
    FieldLinesShape(info, order);
    LineKeysMembers(order);
    var fs := LineKeys(order);
    assert (set k | k in fs) == info.Keys - {Citekey};
    DistinctCard(fs);
  }

  /** A list without repeats has as many elements as its set. */
  lemma {:induction false} DistinctCard(s: seq<Field>)
    requires Distinct(s)
    ensures |set k | k in s| == |s|
    decreases |s|
  {
    if s != [] {
      var init := s[..|s| - 1];
      assert s == init + [s[|s| - 1]];
      assert Distinct(init);
      DistinctCard(init);
      assert s[|s| - 1] !in init;
      assert (set k | k in s) == (set k | k in init) + {s[|s| - 1]};
    }
  }

  /** An entry built by the lookup prints exactly when its title and journal are not NULL. */
  lemma EntryPrints(row: Row, order: seq<Field>)
    requires MakeEntry(row).Ok? && Enumerates(order, MakeEntry(row).value.Keys)
    ensures BibtexEntry(MakeEntry(row).value, order).Ok? <==> row.attributedTitle.Some? && row.bundleString.Some?
  {
    EntryFields(row);
    BibtexOk(MakeEntry(row).value, order);
  }

  /** A key with a value appends its line to the lines of the keys before it. */
  lemma FieldLinesSnoc(info: Entry, order: seq<Field>, lines: seq<string>, key: Field, v: string)
    requires forall k :: k in order + [key] ==> k in info
    requires FieldLines(info, order) == Ok(lines)
    requires key != Citekey && info[key] == Some(v)
    ensures FieldLines(info, order + [key]) == Ok(lines + [FieldLine(key, v)])
  {
    assert (order + [key])[..|order|] == order;
  }

  /** With a citekey and the field lines at hand, the block is the header, the joined lines and the brace. */
  lemma BibtexOfLines(info: Entry, order: seq<Field>, citekey: string, lines: seq<string>)
    requires Enumerates(order, info.Keys)
    requires Citekey in info && info[Citekey] == Some(citekey)
    requires FieldLines(info, order) == Ok(lines)
    ensures BibtexEntry(info, order) == Ok(Header(citekey) + Join(lines, ",\n") + "\n}")
  {
  }

  /** The lines of a citekey, a title, an author and a year visited in that order. */
  lemma ThreeFieldLines(info: Entry, title: string, author: string, year: string)
    requires Citekey in info && Title in info && Author in info && Year in info
    requires info[Title] == Some(title) && info[Author] == Some(author) && info[Year] == Some(year)
    ensures FieldLines(info, [Citekey, Title, Author, Year])
      == Ok([FieldLine(Title, title), FieldLine(Author, author), FieldLine(Year, year)])
  {
    var t, au, y := FieldLine(Title, title), FieldLine(Author, author), FieldLine(Year, year);
    assert FieldLines(info, [Citekey]) == Ok([]) by {
      assert [Citekey][..0] == [];
    }
    FieldLinesSnoc(info, [Citekey], [], Title, title);
    assert [Citekey] + [Title] == [Citekey, Title] && [] + [t] == [t];
    FieldLinesSnoc(info, [Citekey, Title], [t], Author, author);
    assert [Citekey, Title] + [Author] == [Citekey, Title, Author] && [t] + [au] == [t, au];
    FieldLinesSnoc(info, [Citekey, Title, Author], [t, au], Year, year);
    assert [Citekey, Title, Author] + [Year] == [Citekey, Title, Author, Year];
    assert [t, au] + [y] == [t, au, y];
  }

  /** Three parts joined: the separator between the first and second and between the second and third. */
  lemma JoinThree(a: string, b: string, c: string, sep: string)
    ensures Join([a, b, c], sep) == a + sep + b + sep + c
  {
    assert [a, b, c][1..] == [b, c] && [b, c][1..] == [c];
    assert Join([b, c], sep) == b + sep + c;
  }

  /**
   * A record with a citekey, a title, an author and a year, visited in that
   * order: a title line with doubled braces, author and year lines with
   * single braces, and no other line.
   */
  lemma ThreeFieldBlock(info: Entry, citekey: string, title: string, author: string, year: string)
    requires info.Keys == {Citekey, Title, Author, Year}
    requires info[Citekey] == Some(citekey) && info[Title] == Some(title)
    requires info[Author] == Some(author) && info[Year] == Some(year)
    ensures Enumerates([Citekey, Title, Author, Year], info.Keys)
    ensures BibtexEntry(info, [Citekey, Title, Author, Year])
      == Ok(Header(citekey)
            + (FieldLine(Title, title) + ",\n" + FieldLine(Author, author) + ",\n" + FieldLine(Year, year))
            + "\n}")
  {
    var order := [Citekey, Title, Author, Year];
    var t, au, y := FieldLine(Title, title), FieldLine(Author, author), FieldLine(Year, year);
    assert Distinct(order);
    ThreeFieldLines(info, title, author, year);
    JoinThree(t, au, y, ",\n");
    BibtexOfLines(info, order, citekey, [t, au, y]);
  }

  /** Every key but `citekey` that a printed block holds gives its line among the lines the block joins. */
  lemma LineOf(info: Entry, order: seq<Field>, key: Field, value: string)
    requires Enumerates(order, info.Keys) && BibtexEntry(info, order).Ok?
    requires key in info && key != Citekey && info[key] == Some(value)
    ensures FieldLines(info, order).Ok?
    ensures FieldLine(key, value) in FieldLines(info, order).value
  {
    BibtexLayout(info, order);
    var lines := FieldLines(info, order).value;
    var ks := LineKeys(order);
    assert key in ks;
    var i :| 0 <= i < |ks| && ks[i] == key;
    assert lines[i] == FieldLine(key, value);
  }

  /** A printed block holds the title in doubled braces. */
  lemma TitleLine(info: Entry, order: seq<Field>, title: string)
    requires Enumerates(order, info.Keys) && BibtexEntry(info, order).Ok?
    requires Title in info && info[Title] == Some(title)
    ensures FieldLines(info, order).Ok?
    ensures "title = {{" + title + "}}" in FieldLines(info, order).value
  {
    LineOf(info, order, Title, title);
  }

  /** A printed block holds every other key but `citekey` as its name and its value in single braces. */
  lemma PlainLine(info: Entry, order: seq<Field>, key: Field, value: string)
    requires Enumerates(order, info.Keys) && BibtexEntry(info, order).Ok?
    requires key in info && key != Citekey && key != Title && info[key] == Some(value)
    ensures FieldLines(info, order).Ok?
    ensures Name(key) + " = {" + value + "}" in FieldLines(info, order).value
  {
    LineOf(info, order, key, value);
  }
}
