/**
 * `lookup_citations`: the citekeys go to the datastore in consecutive
 * batches of at most `n`, and every row that comes back becomes an entry
 * dictionary stored under the row's own citekey.
 */
module Lookup {
  import opened Wrappers
  import opened Fields

  /** One row of the `Publication` query: the matched citekey and the columns that may be NULL. */
  datatype Row = Row(
    publicationDate: Option<string>,
    fullAuthorString: Option<string>,
    attributedTitle: Option<string>,
    bundleString: Option<string>,
    volume: Option<string>,
    number: Option<string>,
    startpage: Option<string>,
    endpage: Option<string>,
    citekey: string)

  /** The keys an entry dictionary can hold. */
  datatype Field = Title | Author | Journal | Citekey | Month | Year | Number | Volume | Pages

  /** The key as the dictionary and the printed block spell it. */
  function Name(f: Field): string {
    match f
    case Title => "title"
    case Author => "author"
    case Journal => "journal"
    case Citekey => "citekey"
    case Month => "month"
    case Year => "year"
    case Number => "number"
    case Volume => "volume"
    case Pages => "pages"
  }

  /** Different keys are spelled differently. */
  lemma NameInjective(f: Field, g: Field)
    ensures Name(f) == Name(g) ==> f == g
  {
  }

  /** An entry dictionary; `None` is a NULL column copied into it unchanged. */
  type Entry = map<Field, Option<string>>

  /** The datastore: the rows one `WHERE citekey IN (...)` query returns for a batch, in order. */
  type Datastore = seq<string> -> seq<Row>

  function Min(a: nat, b: nat): (r: nat)
    ensures r <= a && r <= b && (r == a || r == b)
  {
    if a <= b then a else b
  }

  /** The keys every entry carries, whatever its row holds. */
  const BaseFields: set<Field> := {Title, Author, Journal, Citekey, Month, Year}

  /** The keys an entry built from `row` has: the base ones and the optional ones whose columns are set. */
  function EntryKeys(row: Row): set<Field> {
    BaseFields
    + (if row.number.Some? then {Number} else {})
    + (if row.volume.Some? then {Volume} else {})
    + (if row.startpage.Some? && row.endpage.Some? then {Pages} else {})
  }

  /** The page range `"%s--%s" % (startpage, endpage)`. */
  function PageRange(start: string, end: string): string {
    start + "--" + end
  }

  /** The dictionary built from a row once its author string has been converted to `author`. */
  function EntryOf(row: Row, author: string): Entry {
    var date := ConvertDate(row.publicationDate);
    var base: Entry := map[
      Title := row.attributedTitle, Author := Some(author),
      Journal := row.bundleString, Citekey := Some(row.citekey),
      Month := Some(date.month), Year := Some(date.year)];
    var withNumber := if row.number.Some? then base[Number := row.number] else base;
    var withVolume := if row.volume.Some? then withNumber[Volume := row.volume] else withNumber;
    if row.startpage.Some? && row.endpage.Some? then
      withVolume[Pages := Some(PageRange(row.startpage.value, row.endpage.value))]
    else withVolume
  }

  /**
   * The entry one row becomes. Only the author conversion can raise: a NULL
   * author string has no `replace`, and a blank author chunk has no last word.
   */
  function MakeEntry(row: Row): (r: Result<Entry, Failure>)
    ensures r.Err? <==> row.fullAuthorString.None? || AuthorStyle(row.fullAuthorString.value, "default").Err?
    ensures row.fullAuthorString.None? ==> r == Err(NullAuthorString)
    ensures r.Err? && row.fullAuthorString.Some? ==> r.error == EmptyAuthorChunk
    ensures r.Ok? ==> r.value == EntryOf(row, AuthorStyle(row.fullAuthorString.value, "default").value)
  {
    match row.fullAuthorString
    case None => Err(NullAuthorString)
    case Some(a) =>
      match AuthorStyle(a, "default")
      case Err(e) => Err(e)
      case Ok(author) => Ok(EntryOf(row, author))
  }

  /**
   * What an entry holds: exactly the keys `EntryKeys` names, the citekey,
   * title, journal and converted author and date copied from the row, the
   * optional columns unchanged, and NULL possible only for title and journal.
   */
  lemma EntryFields(row: Row)
    requires MakeEntry(row).Ok?
    ensures var e := MakeEntry(row).value;
      && e.Keys == EntryKeys(row)
      && (forall k :: k in e && k != Title && k != Journal ==> e[k].Some?)
      && e[Citekey] == Some(row.citekey)
      && e[Title] == row.attributedTitle
      && e[Journal] == row.bundleString
      && e[Author] == Some(AuthorStyle(row.fullAuthorString.value, "default").value)
      && e[Month] == Some(ConvertDate(row.publicationDate).month)
      && e[Year] == Some(ConvertDate(row.publicationDate).year)
      && (row.number.Some? ==> e[Number] == row.number)
      && (row.volume.Some? ==> e[Volume] == row.volume)
      && (row.startpage.Some? && row.endpage.Some? ==> e[Pages] == Some(PageRange(row.startpage.value, row.endpage.value)))
  {
    var author := AuthorStyle(row.fullAuthorString.value, "default").value;
    var e := MakeEntry(row).value;
    assert e == EntryOf(row, author);
    EntryShape(row, author);
    EntryValues(row, author);
  }

  /** The entry has the keys `EntryKeys` names, and only title and journal may be NULL. */
  lemma EntryShape(row: Row, author: string)
    ensures var e := EntryOf(row, author);
      && e.Keys == EntryKeys(row)
      && (forall k :: k in e && k != Title && k != Journal ==> e[k].Some?)
  {
    EntryKeySet(row, author);
    EntryDefined(row, author);
  }

  /** The entry's keys are the base keys and the optional keys whose columns are set. */
  lemma EntryKeySet(row: Row, author: string)
    ensures EntryOf(row, author).Keys == EntryKeys(row)
  {
  }

  /** Every value but title and journal is set. */
  lemma EntryDefined(row: Row, author: string)
    ensures var e := EntryOf(row, author);
      forall k :: k in e && k != Title && k != Journal ==> e[k].Some?
  {
  }

  /** Where each value comes from: its column, the converted author, the converted date or the page range. */
  lemma EntryValues(row: Row, author: string)
    ensures var e := EntryOf(row, author);
      && Citekey in e && e[Citekey] == Some(row.citekey)
      && Title in e && e[Title] == row.attributedTitle
      && Journal in e && e[Journal] == row.bundleString
      && Author in e && e[Author] == Some(author)
      && Month in e && e[Month] == Some(ConvertDate(row.publicationDate).month)
      && Year in e && e[Year] == Some(ConvertDate(row.publicationDate).year)
      && (row.number.Some? ==> Number in e && e[Number] == row.number)
      && (row.volume.Some? ==> Volume in e && e[Volume] == row.volume)
      && (row.startpage.Some? && row.endpage.Some? ==> Pages in e && e[Pages] == Some(PageRange(row.startpage.value, row.endpage.value)))
  {
  }

  /** Page bounds 272 and 278 give the field `pages` holding `272--278`; a missing bound gives no field. */
  lemma ExamplePages(row: Row)
    requires MakeEntry(row).Ok?
    ensures row.startpage == Some("272") && row.endpage == Some("278") ==>
      MakeEntry(row).value[Pages] == Some("272--278")
    ensures row.startpage.None? || row.endpage.None? ==> Pages !in MakeEntry(row).value
  {
    var author := AuthorStyle(row.fullAuthorString.value, "default").value;
    assert MakeEntry(row).value == EntryOf(row, author);
    EntryPages(row, author);
    if row.startpage == Some("272") && row.endpage == Some("278") {
      assert PageRange("272", "278") == "272--278";
    }
  }

  /** The field `pages` is there exactly when both page bounds are. */
  lemma EntryPages(row: Row, author: string)
    ensures var e := EntryOf(row, author);
      (Pages in e <==> row.startpage.Some? && row.endpage.Some?)
      && (Pages in e ==> e[Pages] == Some(PageRange(row.startpage.value, row.endpage.value)))
  {
  }

  /** Builds the entry the way the loop body does, one conditional assignment at a time. */
  method BuildEntry(row: Row) returns (r: Result<Entry, Failure>)
    ensures r == MakeEntry(row)
  {
    var date := ConvertDate(row.publicationDate);
    if row.fullAuthorString.None? {
      return Err(NullAuthorString);
    }
    var author := ConvertAuthorStyle(row.fullAuthorString.value, "default");
    if author.Err? {
      return Err(author.error);
    }
    var entry: Entry := map[
      Title := row.attributedTitle, Author := Some(author.value),
      Journal := row.bundleString, Citekey := Some(row.citekey)];
    entry := entry[Month := Some(date.month)];
    entry := entry[Year := Some(date.year)];
    if row.number.Some? {
      entry := entry[Number := row.number];
    }
    if row.volume.Some? {
      entry := entry[Volume := row.volume];
    }
    if row.startpage.Some? && row.endpage.Some? {
      entry := entry[Pages := Some(PageRange(row.startpage.value, row.endpage.value))];
    }
    r := Ok(entry);
  }

  // Batching.

  /** The batches the `while` loop cuts: `citekeys[0:take]` with `take = min(len, n)`, then the rest. */
  function Batches(keys: seq<string>, n: nat): seq<seq<string>>
    requires n >= 1
    decreases |keys|
  {
    if keys == [] then []
    else
      var take := Min(|keys|, n);
      [keys[..take]] + Batches(keys[take..], n)
  }

  function Flatten(batches: seq<seq<string>>): seq<string> {
    if batches == [] then [] else batches[0] + Flatten(batches[1..])
  }

  /** The batches, in order, give back every key exactly in its place. */
  lemma {:induction false} BatchesCover(keys: seq<string>, n: nat)
    requires n >= 1
    ensures Flatten(Batches(keys, n)) == keys
    decreases |keys|
  {
    if keys != [] {
      var take := Min(|keys|, n);
      BatchesCover(keys[take..], n);
      assert [keys[..take]] + Batches(keys[take..], n) == Batches(keys, n);
      assert Batches(keys, n)[1..] == Batches(keys[take..], n);
      assert keys[..take] + keys[take..] == keys;
    }
  }

  /**
   * The number of queries is the ceiling of `|keys| / n`: no batch when
   * there is no key, otherwise `(b - 1) * n < |keys| <= b * n`.
   */
  lemma {:induction false} BatchesCount(keys: seq<string>, n: nat)
    requires n >= 1
    ensures |Batches(keys, n)| == 0 <==> keys == []
    ensures (|Batches(keys, n)| - 1) * n < |keys| <= |Batches(keys, n)| * n
    decreases |keys|
  {
    if keys != [] {
      var take := Min(|keys|, n);
      var rest := keys[take..];
      var b := |Batches(rest, n)|;
      BatchesCount(rest, n);
      assert |Batches(keys, n)| == b + 1;
      if take == |keys| {
        assert rest == [];
        assert b == 0;
        assert (b + 1 - 1) * n == 0 && (b + 1) * n == n;
      } else {
        assert take == n && |rest| == |keys| - n;
        BatchBound(b, n, |rest|);
      }
    }
  }

  /** One more full batch of `n` keeps the count bound. */
  lemma BatchBound(b: int, n: int, r: int)
    requires (b - 1) * n < r <= b * n
    ensures (b + 1 - 1) * n < r + n <= (b + 1) * n
  {
    assert (b + 1) * n == b * n + n;
    assert (b - 1) * n + n == b * n;
  }

  /** The same count as a quotient: `(|keys| + n - 1) / n`. */
  lemma BatchesQuotient(keys: seq<string>, n: nat)
    requires n >= 1
    ensures |Batches(keys, n)| == (|keys| + n - 1) / n
  {
    var b := |Batches(keys, n)|;
    BatchesCount(keys, n);
    if b == 0 {
      assert |keys| == 0;
    } else {
      var x := |keys| + n - 1;
      assert (b - 1) * n + n == b * n;
      assert b * n <= x < b * n + n;
      DivUnique(x, n, b);
    }
  }

  lemma DivUnique(x: nat, n: nat, q: nat)
    requires n >= 1 && q * n <= x < q * n + n
    ensures x / n == q
  {
    var q' := x / n;
    if q' < q {
      MulMono(q' + 1, q, n);
    } else if q < q' {
      MulMono(q + 1, q', n);
    }
  }

  lemma MulMono(a: nat, b: nat, n: nat)
    requires a <= b
    ensures a * n <= b * n
  {
    assert b * n == a * n + (b - a) * n;
  }

  /**
   * The `i`-th batch is the consecutive slice starting at `i * n`; every
   * batch but the last holds exactly `n` keys, and the last between 1 and `n`.
   */
  lemma {:induction false} BatchesSlices(keys: seq<string>, n: nat)
    requires n >= 1
    ensures forall i :: 0 <= i < |Batches(keys, n)| ==>
      i * n < |keys| && Batches(keys, n)[i] == keys[i * n .. Min(i * n + n, |keys|)]
    decreases |keys|
  {
    if keys != [] {
      var take := Min(|keys|, n);
      var rest := keys[take..];
      var bs := Batches(keys, n);
      BatchesSlices(rest, n);
      assert bs == [keys[..take]] + Batches(rest, n);
      forall i | 0 <= i < |bs|
        ensures i * n < |keys| && bs[i] == keys[i * n .. Min(i * n + n, |keys|)]
      {
        if i > 0 {
          var j := i - 1;
          assert bs[i] == Batches(rest, n)[j];
          assert j * n < |rest| && Batches(rest, n)[j] == rest[j * n .. Min(j * n + n, |rest|)];
          assert take == n;
          SliceShift(keys, n, i);
        }
      }
    }
  }

  /** Batch `i - 1` of what follows the first batch is batch `i` of the whole. */
  lemma SliceShift(keys: seq<string>, n: nat, i: nat)
    requires 1 <= n < |keys| && 1 <= i && (i - 1) * n < |keys| - n
    ensures i * n < |keys|
    ensures keys[n..][(i - 1) * n .. Min((i - 1) * n + n, |keys| - n)] == keys[i * n .. Min(i * n + n, |keys|)]
  {
    var lo := (i - 1) * n;
    var hi := Min(lo + n, |keys| - n);
    assert i * n == lo + n;
    assert keys[n..][lo..hi] == keys[lo + n .. hi + n];
  }

  /** Every batch but the last holds `n` keys; the last holds between 1 and `n`. */
  lemma BatchesSizes(keys: seq<string>, n: nat)
    requires n >= 1
    ensures var bs := Batches(keys, n);
      (forall i :: 0 <= i < |bs| - 1 ==> |bs[i]| == n)
      && (|bs| > 0 ==> 1 <= |bs[|bs| - 1]| <= n)
  {
    var bs := Batches(keys, n);
    BatchesSlices(keys, n);
    BatchesCount(keys, n);
    forall i | 0 <= i < |bs| - 1
      ensures |bs[i]| == n
    {
      MulMono(i + 1, |bs| - 1, n);
    }
  }

  /** Two hundred and fifty keys in batches of a hundred: three queries of 100, 100 and 50 keys. */
  lemma ExampleBatches(keys: seq<string>)
    requires |keys| == 250
    ensures var bs := Batches(keys, 100);
      |bs| == 3 && |bs[0]| == 100 && |bs[1]| == 100 && |bs[2]| == 50
  {
    BatchesQuotient(keys, 100);
    BatchesSlices(keys, 100);
  }

  // Collecting the rows.

  /** The rows the queries of `batches` return, one query after the other. */
  function RowsOf(query: Datastore, batches: seq<seq<string>>): seq<Row> {
    if batches == [] then []
    else RowsOf(query, batches[..|batches| - 1]) + query(batches[|batches| - 1])
  }

  /** How one row becomes an entry, or the failure it raises; the lookup uses `MakeEntry`. */
  type Builder = Row -> Result<Entry, Failure>

  /** The results dictionary filled row by row with `make`; the first row that raises ends it. */
  function Collect(make: Builder, rows: seq<Row>): Result<map<string, Entry>, Failure> {
    if rows == [] then Ok(map[])
    else
      match Collect(make, rows[..|rows| - 1])
      case Err(e) => Err(e)
      case Ok(m) =>
        match make(rows[|rows| - 1])
        case Err(e) => Err(e)
        case Ok(entry) => Ok(m[rows[|rows| - 1].citekey := entry])
  }

  /** What `lookup_citations(dbconn, keys, n)` returns, or the failure it raises. */
  function Resolve(query: Datastore, keys: seq<string>, n: nat): Result<map<string, Entry>, Failure>
    requires n >= 1
  {
    Collect(MakeEntry, RowsOf(query, Batches(keys, n)))
  }

  lemma {:induction false} RowsOfAppend(query: Datastore, a: seq<seq<string>>, b: seq<seq<string>>)
    ensures RowsOf(query, a + b) == RowsOf(query, a) + RowsOf(query, b)
    decreases |b|
  {
    if b == [] {
      assert a + b == a;
    } else {
      var b' := b[..|b| - 1];
      assert (a + b)[..|a + b| - 1] == a + b';
      assert (a + b)[|a + b| - 1] == b[|b| - 1];
      RowsOfAppend(query, a, b');
      var x, y, z := RowsOf(query, a), RowsOf(query, b'), query(b[|b| - 1]);
      assert RowsOf(query, a + b) == (x + y) + z;
      assert (x + y) + z == x + (y + z);
    }
  }

  /** Once a row has raised, later rows change nothing: the first failure is the answer. */
  lemma {:induction false} CollectErrPrefix(make: Builder, a: seq<Row>, b: seq<Row>)
    requires Collect(make, a).Err?
    ensures Collect(make, a + b) == Collect(make, a)
    decreases |b|
  {
    if b == [] {
      assert a + b == a;
    } else {
      var b' := b[..|b| - 1];
      CollectErrPrefix(make, a, b');
      assert (a + b)[..|a + b| - 1] == a + b';
    }
  }

  /** The lookup fails exactly when some row's entry fails. */
  lemma {:induction false} CollectFails(make: Builder, rows: seq<Row>)
    ensures Collect(make, rows).Err? <==> exists i :: 0 <= i < |rows| && make(rows[i]).Err?
    decreases |rows|
  {
    if rows != [] {
      var init := rows[..|rows| - 1];
      CollectFails(make, init);
      assert forall i :: 0 <= i < |init| ==> init[i] == rows[i];
    }
  }

  /** A failed lookup fails with the failure of the first row whose entry fails. */
  lemma {:induction false} CollectFirstFailure(make: Builder, rows: seq<Row>) returns (i: nat)
    requires Collect(make, rows).Err?
    ensures i < |rows| && make(rows[i]).Err? && Collect(make, rows).error == make(rows[i]).error
    ensures forall j :: 0 <= j < i ==> make(rows[j]).Ok?
    decreases |rows|
  {
    var init := rows[..|rows| - 1];
    if Collect(make, init).Err? {
      i := CollectFirstFailure(make, init);
      assert forall j :: 0 <= j <= i ==> init[j] == rows[j];
    } else {
      i := |rows| - 1;
      CollectFails(make, init);
      forall j | 0 <= j < i
        ensures make(rows[j]).Ok?
      {
        assert init[j] == rows[j];
      }
    }
  }

  /** The result's keys are exactly the citekeys of the rows returned. */
  lemma {:induction false} CollectKeys(make: Builder, rows: seq<Row>)
    requires Collect(make, rows).Ok?
    ensures Collect(make, rows).value.Keys == set r | r in rows :: r.citekey
    decreases |rows|
  {
    if rows != [] {
      var init := rows[..|rows| - 1];
      CollectKeys(make, init);
      assert rows == init + [rows[|rows| - 1]];
      assert (set r | r in rows :: r.citekey) == (set r | r in init :: r.citekey) + {rows[|rows| - 1].citekey};
    }
  }

  /** Row `i` is the last row returned for its citekey. */
  predicate LastFor(rows: seq<Row>, i: nat) {
    i < |rows| && forall j :: i < j < |rows| ==> rows[j].citekey != rows[i].citekey
  }

  /** A later row for the same citekey overwrites an earlier one: each key holds its last row's entry. */
  lemma {:induction false} CollectLastWins(make: Builder, rows: seq<Row>, i: nat)
    requires Collect(make, rows).Ok? && LastFor(rows, i)
    ensures rows[i].citekey in Collect(make, rows).value
    ensures make(rows[i]).Ok? && Collect(make, rows).value[rows[i].citekey] == make(rows[i]).value
    decreases |rows|
  {
    var last := |rows| - 1;
    var init := rows[..last];
    assert Collect(make, init).Ok?;
    if i < last {
      assert LastFor(init, i) by {
        forall j | i < j < |init|
          ensures init[j].citekey != init[i].citekey
        {
          assert init[j] == rows[j];
        }
      }
      CollectLastWins(make, init, i);
      assert init[i] == rows[i];
    }
  }

  /** Every entry of the lookup is stored under the key its `citekey` field holds. */
  lemma CollectCitekeyField(rows: seq<Row>)
    requires forall i :: 0 <= i < |rows| ==> MakeEntry(rows[i]).Ok?
    ensures Collect(MakeEntry, rows).Ok?
    ensures forall k :: k in Collect(MakeEntry, rows).value ==>
      Citekey in Collect(MakeEntry, rows).value[k] && Collect(MakeEntry, rows).value[k][Citekey] == Some(k)
  {
    CollectFails(MakeEntry, rows);
    var m := Collect(MakeEntry, rows).value;
    CollectKeys(MakeEntry, rows);
    forall k | k in m
      ensures Citekey in m[k] && m[k][Citekey] == Some(k)
    {
      var i := LastIndex(rows, k);
      CollectLastWins(MakeEntry, rows, i);
      EntryFields(rows[i]);
    }
  }

  /** The position of the last row whose citekey is `k`. */
  lemma LastIndex(rows: seq<Row>, k: string) returns (i: nat)
    requires k in set r | r in rows :: r.citekey
    ensures LastFor(rows, i) && rows[i].citekey == k
  {
    var last := |rows| - 1;
    if rows[last].citekey == k {
      i := last;
    } else {
      var init := rows[..last];
      assert rows == init + [rows[last]];
      assert k in set r | r in init :: r.citekey;
      i := LastIndex(init, k);
      assert init[i] == rows[i];
      assert LastFor(rows, i) by {
        forall j | i < j < |rows|
          ensures rows[j].citekey != rows[i].citekey
        {
          if j < last {
            assert init[j] == rows[j];
          }
        }
      }
    }
  }

  /** No key means no query and an empty result. */
  lemma ResolveEmpty(query: Datastore, n: nat)
    requires n >= 1
    ensures Batches([], n) == [] && Resolve(query, [], n) == Ok(map[])
  {
  }

  /**
   * A datastore that honours the `IN` filter returns only requested keys,
   * so every key of the result was among the keys looked up; keys no row
   * matches are simply absent.
   */
  lemma ResolveWithinKeys(query: Datastore, keys: seq<string>, n: nat)
    requires n >= 1
    requires forall b: seq<string>, r: Row :: r in query(b) ==> r.citekey in b
    requires Resolve(query, keys, n).Ok?
    ensures Resolve(query, keys, n).value.Keys <= set k | k in keys
  {
    var bs := Batches(keys, n);
    CollectKeys(MakeEntry, RowsOf(query, bs));
    BatchesCover(keys, n);
    forall r | r in RowsOf(query, bs)
      ensures r.citekey in keys
    {
      RowsFromBatches(query, bs, r);
      var b :| b in bs && r in query(b);
      FlattenHas(bs, b, r.citekey);
    }
  }

  lemma {:induction false} RowsFromBatches(query: Datastore, bs: seq<seq<string>>, r: Row)
    requires r in RowsOf(query, bs)
    ensures exists b :: b in bs && r in query(b)
    decreases |bs|
  {
    var init := bs[..|bs| - 1];
    if r !in query(bs[|bs| - 1]) {
      RowsFromBatches(query, init, r);
      var b :| b in init && r in query(b);
      assert b in bs;
    }
  }

  lemma {:induction false} FlattenHas(bs: seq<seq<string>>, b: seq<string>, k: string)
    requires b in bs && k in b
    ensures k in Flatten(bs)
    decreases |bs|
  {
    if bs[0] != b {
      FlattenHas(bs[1..], b, k);
    }
  }

  /** One key, one matching row: the result is that row's entry under that key. */
  lemma ResolveSingle(query: Datastore, k: string, n: nat, row: Row)
    requires n >= 1 && query([k]) == [row] && row.citekey == k && MakeEntry(row).Ok?
    ensures Resolve(query, [k], n) == Ok(map[k := MakeEntry(row).value])
  {
    assert Batches([k], n) == [[k]] by {
      assert [k][..1] == [k];
      assert [k][1..] == [];
    }
    assert RowsOf(query, [[k]]) == [row] by {
      assert [[k]][..0] == [];
      assert RowsOf(query, []) == [];
    }
    CollectStep(MakeEntry, [], row, map[]);
    assert [] + [row] == [row];
  }

  /** Adding one row to a successful collection either stores its entry or fails with it. */
  lemma CollectStep(make: Builder, rows: seq<Row>, row: Row, m: map<string, Entry>)
    requires Collect(make, rows) == Ok(m)
    ensures Collect(make, rows + [row]) ==
      match make(row)
      case Err(e) => Err(e)
      case Ok(entry) => Ok(m[row.citekey := entry])
  {
    assert (rows + [row])[..|rows|] == rows;
  }

  // The imperative lookup.

  /**
   * The inner `for row in c` loop: adds the entry `make` builds from each
   * row of one query to `results`, stopping at the first row that raises.
   */
  method CollectBatch(make: Builder, results: map<string, Entry>, rows: seq<Row>, ghost before: seq<Row>)
    returns (r: Result<map<string, Entry>, Failure>)
    requires Collect(make, before) == Ok(results)
    ensures r == Collect(make, before + rows)
  {
    var acc := results;
    ghost var seen := before;
    assert before + rows[..0] == before;
    for j := 0 to |rows|
      invariant seen == before + rows[..j]
      invariant Collect(make, seen) == Ok(acc)
    {
      var entry := make(rows[j]);
      CollectStep(make, seen, rows[j], acc);
      SliceSnoc(before, rows, j);
      if entry.Err? {
        CollectErrPrefix(make, seen + [rows[j]], rows[j + 1..]);
        return Err(entry.error);
      }
      acc := acc[rows[j].citekey := entry.value];
      seen := seen + [rows[j]];
    }
    assert rows[..|rows|] == rows;
    r := Ok(acc);
  }

  /** Taking one more element of `b` after `a`, and what is left after it. */
  lemma SliceSnoc(a: seq<Row>, b: seq<Row>, j: nat)
    requires j < |b|
    ensures a + b[..j] + [b[j]] == a + b[..j + 1]
    ensures a + b[..j] + [b[j]] + b[j + 1..] == a + b
  {
    assert b[..j] + [b[j]] == b[..j + 1];
    assert b[..j + 1] + b[j + 1..] == b;
  }

  /**
   * `lookup_citations(dbconn, citekeys, n)`. Besides the result it returns
   * the batches it sent, in order: all of `Batches` when it succeeds, and a
   * prefix of them, ending with the batch whose row raised, when it fails.
   */
  method LookupCitations(query: Datastore, citekeys: seq<string>, n: nat)
    returns (r: Result<map<string, Entry>, Failure>, sent: seq<seq<string>>)
    requires n >= 1
    ensures r == Resolve(query, citekeys, n)
    ensures sent <= Batches(citekeys, n)
    ensures r.Ok? <==> sent == Batches(citekeys, n) && Collect(MakeEntry, RowsOf(query, sent)).Ok?
    ensures r.Err? ==> Collect(MakeEntry, RowsOf(query, sent)) == r
    ensures r.Err? ==> sent != [] && Collect(MakeEntry, RowsOf(query, sent[..|sent| - 1])).Ok?
  {
    var results: map<string, Entry> := map[];
    var rest := citekeys;
    sent := [];
    while |rest| > 0
      invariant sent + Batches(rest, n) == Batches(citekeys, n)
      invariant Collect(MakeEntry, RowsOf(query, sent)) == Ok(results)
      decreases |rest|
    {
      var take := Min(|rest|, n);
      var batch := rest[..take];
      BatchesStep(rest, n, sent, Batches(citekeys, n));
      rest := rest[take..];
      ghost var before := RowsOf(query, sent);
      ghost var prev := sent;
      assert (sent + [batch])[..|sent|] == sent;
      sent := sent + [batch];
      var rows := query(batch);
      assert RowsOf(query, sent) == before + rows;
      var got := CollectBatch(MakeEntry, results, rows, before);
      if got.Err? {
        RowsOfAppend(query, sent, Batches(rest, n));
        CollectErrPrefix(MakeEntry, RowsOf(query, sent), RowsOf(query, Batches(rest, n)));
        assert sent + Batches(rest, n) == Batches(citekeys, n);
        PrefixOfBatches(sent, Batches(rest, n), Batches(citekeys, n));
        assert sent[..|sent| - 1] == prev;
        return got, sent;
      }
      results := got.value;
    }
    assert sent == Batches(citekeys, n);
    r := Ok(results);
  }

  /** One turn of the loop moves the first remaining batch to the batches sent. */
  lemma BatchesStep(rest: seq<string>, n: nat, sent: seq<seq<string>>, all: seq<seq<string>>)
    requires n >= 1 && rest != [] && sent + Batches(rest, n) == all
    ensures (sent + [rest[..Min(|rest|, n)]]) + Batches(rest[Min(|rest|, n)..], n) == all
  {
    var take := Min(|rest|, n);
    assert Batches(rest, n) == [rest[..take]] + Batches(rest[take..], n);
    assert (sent + [rest[..take]]) + Batches(rest[take..], n) == sent + ([rest[..take]] + Batches(rest[take..], n));
  }

  lemma PrefixOfBatches(a: seq<seq<string>>, b: seq<seq<string>>, c: seq<seq<string>>)
    requires a + b == c
    ensures a <= c
  {
    assert c[..|a|] == a;
  }
}
