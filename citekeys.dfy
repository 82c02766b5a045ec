/**
 * Citation-key extraction: the pattern `\\cite(?:t|p)?\{(.*?)\}` written out
 * as a scanner, and the process-wide dictionary of key counts (`CITEKEYS`).
 */
module Citekeys {
  import opened Wrappers
  import opened Text

  /** Characters that end a group: the closing brace, or a newline, which `.` does not match. */
  predicate IsStop(c: char) {
    c == '}' || c == '\n'
  }

  /**
   * The pattern matches at `i` with its group spanning `text[s..e]`:
   * `\cite`, an optional `t` or `p`, `{`, then the shortest run of
   * non-newline characters up to the first `}`, which sits at `e`.
   */
  ghost predicate IsMatch(text: string, i: nat, s: nat, e: nat) {
    && i + 6 <= s <= e < |text|
    && text[i..i + 5] == "\\cite"
    && ((s == i + 6 && text[i + 5] == '{')
        || (s == i + 7 && (text[i + 5] == 't' || text[i + 5] == 'p') && text[i + 6] == '{'))
    && text[e] == '}'
    && forall k :: s <= k < e ==> !IsStop(text[k])
  }

  /** Where the group of a marker at `i` would start, if `\cite{`, `\citet{` or `\citep{` begins there. */
  function GroupStart(text: string, i: nat): Option<nat> {
    if i + 6 <= |text| && text[i..i + 5] == "\\cite" then
      if text[i + 5] == '{' then Some(i + 6)
      else if (text[i + 5] == 't' || text[i + 5] == 'p') && i + 7 <= |text| && text[i + 6] == '{' then Some(i + 7)
      else None
    else None
  }

  /** The first index at or after `s` holding a stop character, or the end of the text. */
  function StopAt(text: string, s: nat): (e: nat)
    requires s <= |text|
    ensures s <= e <= |text|
    ensures forall k :: s <= k < e ==> !IsStop(text[k])
    ensures e < |text| ==> IsStop(text[e])
    decreases |text| - s
  {
    if s == |text| || IsStop(text[s]) then s else StopAt(text, s + 1)
  }

  /** The match at `i`, as (group start, index of `}`). */
  function MatchAt(text: string, i: nat): Option<(nat, nat)> {
    match GroupStart(text, i)
    case None => None
    case Some(s) =>
      var e := StopAt(text, s);
      if e < |text| && text[e] == '}' then Some((s, e)) else None
  }

  /** A match at `i` exists exactly when `IsMatch` holds, and it is the only one. */
  lemma MatchAtSpec(text: string, i: nat)
    ensures MatchAt(text, i).Some? ==> IsMatch(text, i, MatchAt(text, i).value.0, MatchAt(text, i).value.1)
    ensures forall s: nat, e: nat :: IsMatch(text, i, s, e) ==> MatchAt(text, i) == Some((s, e))
  {
  }

  /**
   * `findall` from position `i`: try a match; on success record the group
   * and resume after the `}`, otherwise move one character on.
   */
  function CitationsFrom(text: string, i: nat): seq<string>
    requires i <= |text|
    decreases |text| - i
  {
    if i == |text| then []
    else
      match MatchAt(text, i)
      case Some((s, e)) => [text[s..e]] + CitationsFrom(text, e + 1)
      case None => CitationsFrom(text, i + 1)
  }

  /** No group holds a `}` or a newline. */
  lemma {:induction false} CitationsClean(text: string, i: nat)
    requires i <= |text|
    ensures forall j :: 0 <= j < |CitationsFrom(text, i)| ==>
      '}' !in CitationsFrom(text, i)[j] && '\n' !in CitationsFrom(text, i)[j]
    decreases |text| - i
  {
    if i < |text| {
      match MatchAt(text, i)
      case Some((s, e)) =>
        CitationsClean(text, e + 1);
        MatchAtSpec(text, i);
        assert forall k :: 0 <= k < e - s ==> text[s..e][k] == text[s + k];
      case None =>
        CitationsClean(text, i + 1);
    }
  }

  function Citations(text: string): seq<string> {
    CitationsFrom(text, 0)
  }

  /** The scanner: `citekey_re.findall(text)`. */
  method FindCitations(text: string) returns (groups: seq<string>)
    ensures groups == Citations(text)
  {
    groups := [];
    var i := 0;
    while i < |text|
      invariant i <= |text|
      invariant groups + CitationsFrom(text, i) == Citations(text)
      decreases |text| - i
    {
      var found, s := MarkerAt(text, i);
      if !found {
        NoMarker(text, i);
        i := i + 1;
      } else {
        var e := ScanGroup(text, s);
        MarkerScanned(text, i, s, e);
        if e < |text| && text[e] == '}' {
          assert (groups + [text[s..e]]) + CitationsFrom(text, e + 1) == groups + ([text[s..e]] + CitationsFrom(text, e + 1));
          groups := groups + [text[s..e]];
          i := e + 1;
        } else {
          i := i + 1;
        }
      }
    }
  }

  /** The fixed part of the pattern: `\cite`, an optional `t` or `p`, then `{`; `s` is where the group starts. */
  method MarkerAt(text: string, i: nat) returns (found: bool, s: nat)
    ensures found <==> GroupStart(text, i).Some?
    ensures found ==> GroupStart(text, i) == Some(s)
  {
    found, s := false, i + 6;
    if i + 6 <= |text| && text[i..i + 5] == "\\cite" {
      if text[i + 5] == '{' {
        found := true;
      } else if (text[i + 5] == 't' || text[i + 5] == 'p') && i + 7 <= |text| && text[i + 6] == '{' {
        found, s := true, i + 7;
      }
    }
  }

  /** The lazy `(.*?)`: advance from `s` to the first `}` or newline, or to the end. */
  method ScanGroup(text: string, s: nat) returns (e: nat)
    requires s <= |text|
    ensures e == StopAt(text, s)
  {
    e := s;
    while e < |text| && text[e] != '}' && text[e] != '\n'
      invariant s <= e <= |text|
      invariant forall k :: s <= k < e ==> !IsStop(text[k])
      decreases |text| - e
    {
      e := e + 1;
    }
  }

  /** Where no marker starts, `findall` moves one character on. */
  lemma NoMarker(text: string, i: nat)
    requires i < |text| && GroupStart(text, i) == None
    ensures CitationsFrom(text, i) == CitationsFrom(text, i + 1)
  {
  }

  /** Once the group's first stop character is found, it decides whether the match succeeds. */
  lemma MarkerScanned(text: string, i: nat, s: nat, e: nat)
    requires i < |text| && GroupStart(text, i) == Some(s)
    requires s <= e <= |text| && (forall k :: s <= k < e ==> !IsStop(text[k]))
    requires e < |text| ==> IsStop(text[e])
    ensures e < |text| && text[e] == '}' ==> CitationsFrom(text, i) == [text[s..e]] + CitationsFrom(text, e + 1)
    ensures !(e < |text| && text[e] == '}') ==> CitationsFrom(text, i) == CitationsFrom(text, i + 1)
  {
    assert StopAt(text, s) == e;
  }

  /** Each piece, stripped. */
  function StripAll(pieces: seq<string>): seq<string> {
    if pieces == [] then [] else StripAll(pieces[..|pieces| - 1]) + [Strip(ByteString, pieces[|pieces| - 1])]
  }

  lemma StripAllPrefix(pieces: seq<string>, i: nat)
    requires i < |pieces|
    ensures StripAll(pieces[..i + 1]) == StripAll(pieces[..i]) + [Strip(ByteString, pieces[i])]
  {
    assert pieces[..i + 1][..i] == pieces[..i];
  }

  /** As many keys as pieces, each the stripped piece at the same position. */
  lemma {:induction false} StripAllAt(pieces: seq<string>)
    ensures |StripAll(pieces)| == |pieces|
    ensures forall j :: 0 <= j < |pieces| ==> StripAll(pieces)[j] == Strip(ByteString, pieces[j])
  {
    if pieces != [] {
      var init := pieces[..|pieces| - 1];
      var all := StripAll(pieces);
      assert all == StripAll(init) + [Strip(ByteString, pieces[|pieces| - 1])];
      StripAllAt(init);
      forall j | 0 <= j < |pieces|
        ensures all[j] == Strip(ByteString, pieces[j])
      {
        if j < |init| {
          assert all[j] == StripAll(init)[j] && init[j] == pieces[j];
        }
      }
    }
  }

  /** The keys of one group: each comma-separated piece, stripped. */
  function GroupKeys(group: string): seq<string> {
    StripAll(Split(group, ','))
  }

  /** The keys registered for a sequence of groups, in order. */
  function KeysOf(groups: seq<string>): seq<string> {
    if groups == [] then [] else KeysOf(groups[..|groups| - 1]) + GroupKeys(groups[|groups| - 1])
  }

  /** The keys one call of `extract_citekeys` registers, in order. */
  function CitekeysIn(text: string): seq<string> {
    KeysOf(Citations(text))
  }

  /** The number of comma-separated pieces across all groups. */
  function PieceCount(groups: seq<string>): nat {
    if groups == [] then 0 else PieceCount(groups[..|groups| - 1]) + |Split(groups[|groups| - 1], ',')|
  }

  lemma {:induction false} StripAllStripped(pieces: seq<string>)
    ensures forall k :: k in StripAll(pieces) ==> Stripped(ByteString, k)
  {
    if pieces != [] {
      StripAllStripped(pieces[..|pieces| - 1]);
    }
  }

  /** There is one registered key per comma-separated piece. */
  lemma {:induction false} KeysOfLength(groups: seq<string>)
    ensures |KeysOf(groups)| == PieceCount(groups)
  {
    if groups != [] {
      KeysOfLength(groups[..|groups| - 1]);
      StripAllAt(Split(groups[|groups| - 1], ','));
    }
  }

  /** Registered keys carry no leading or trailing whitespace. */
  lemma {:induction false} KeysOfStripped(groups: seq<string>)
    ensures forall k :: k in KeysOf(groups) ==> Stripped(ByteString, k)
  {
    if groups != [] {
      KeysOfStripped(groups[..|groups| - 1]);
      StripAllStripped(Split(groups[|groups| - 1], ','));
    }
  }

  /** Registering one key: a new key starts at 1, a known one goes up by 1. */
  function Bump(m: map<string, nat>, k: string): map<string, nat> {
    if k !in m then m[k := 1] else m[k := m[k] + 1]
  }

  /** The dictionary after registering `keys` one after another. */
  function Tally(m: map<string, nat>, keys: seq<string>): map<string, nat> {
    if keys == [] then m else Bump(Tally(m, keys[..|keys| - 1]), keys[|keys| - 1])
  }

  lemma TallySnoc(m: map<string, nat>, keys: seq<string>, k: string)
    ensures Tally(m, keys + [k]) == Bump(Tally(m, keys), k)
  {
    assert (keys + [k])[..|keys|] == keys;
  }

  /** Registering two runs of keys one after the other is registering their concatenation. */
  lemma {:induction false} TallyAppend(m: map<string, nat>, a: seq<string>, b: seq<string>)
    ensures Tally(m, a + b) == Tally(Tally(m, a), b)
  {
    if b == [] {
      assert a + b == a;
    } else {
      var init := b[..|b| - 1];
      TallyAppend(m, a, init);
      assert (a + b)[..|a + b| - 1] == a + init;
      assert (a + b)[|a + b| - 1] == b[|b| - 1];
    }
  }

  lemma KeysOfPrefix(groups: seq<string>, i: nat)
    requires i < |groups|
    ensures KeysOf(groups[..i + 1]) == KeysOf(groups[..i]) + GroupKeys(groups[i])
  {
    assert groups[..i + 1][..i] == groups[..i];
  }

  /** A key's count, 0 when it was never registered. */
  function CountOf(m: map<string, nat>, k: string): nat {
    if k in m then m[k] else 0
  }

  /** Each key's count goes up by exactly its number of occurrences; absent keys keep theirs. */
  lemma {:induction false} TallyCount(m: map<string, nat>, keys: seq<string>, k: string)
    ensures CountOf(Tally(m, keys), k) == CountOf(m, k) + multiset(keys)[k]
  {
    if keys != [] {
      var init := keys[..|keys| - 1];
      TallyCount(m, init, k);
      assert keys == init + [keys[|keys| - 1]];
    }
  }

  /** The registered keys afterwards are those before plus the new ones. */
  lemma {:induction false} TallyDomain(m: map<string, nat>, keys: seq<string>)
    ensures forall k :: k in Tally(m, keys) <==> k in m || k in keys
  {
    if keys != [] {
      var init := keys[..|keys| - 1];
      TallyDomain(m, init);
      assert keys == init + [keys[|keys| - 1]];
    }
  }

  /** Counts stay at least 1. */
  lemma {:induction false} TallyPositive(m: map<string, nat>, keys: seq<string>)
    requires forall k :: k in m ==> m[k] >= 1
    ensures forall k :: k in Tally(m, keys) ==> Tally(m, keys)[k] >= 1
  {
    if keys != [] {
      TallyPositive(m, keys[..|keys| - 1]);
    }
  }

  /** Counts depend only on how often each key occurs, not on the order of registration. */
  lemma TallyOrderFree(m: map<string, nat>, a: seq<string>, b: seq<string>)
    requires multiset(a) == multiset(b)
    ensures Tally(m, a) == Tally(m, b)
  {
    TallyDomain(m, a);
    TallyDomain(m, b);
    forall k ensures k in a <==> k in b {
      assert k in a <==> k in multiset(a);
      assert k in b <==> k in multiset(b);
    }
    assert Tally(m, a).Keys == Tally(m, b).Keys;
    forall k | k in Tally(m, a)
      ensures Tally(m, a)[k] == Tally(m, b)[k]
    {
      assert k in multiset(a) <==> k in multiset(b);
      TallyCount(m, a, k);
      TallyCount(m, b, k);
    }
  }

  /** Some key of a non-empty dictionary. */
  ghost function Pick(m: map<string, nat>): string
    requires m != map[]
  {
    var k :| k in m; k
  }

  /** The sum of all counts. */
  ghost function Total(m: map<string, nat>): nat
    decreases |m|
  {
    if m == map[] then 0
    else
      var k := Pick(m);
      assert |m - {k}| < |m| by { assert (m - {k}).Keys == m.Keys - {k}; }
      m[k] + Total(m - {k})
  }

  /** The sum can be taken starting from any key. */
  lemma TotalAt(m: map<string, nat>, k: string)
    requires k in m
    ensures Total(m) == m[k] + Total(m - {k})
    decreases |m|
  {
    var j := Pick(m);
    if j != k {
      assert (m - {j}).Keys == m.Keys - {j};
      assert (m - {k}).Keys == m.Keys - {k};
      TotalAt(m - {j}, k);
      TotalAt(m - {k}, j);
      assert m - {j} - {k} == m - {k} - {j};
    }
  }

  /** Registering one key raises the sum of counts by one. */
  lemma TotalBump(m: map<string, nat>, k: string)
    ensures Total(Bump(m, k)) == Total(m) + 1
  {
    var b := Bump(m, k);
    TotalAt(b, k);
    if k in m {
      TotalAt(m, k);
      assert b - {k} == m - {k};
    } else {
      assert b - {k} == m;
    }
  }

  /** Registering `keys` raises the sum of counts by their number. */
  lemma {:induction false} TallyTotal(m: map<string, nat>, keys: seq<string>)
    ensures Total(Tally(m, keys)) == Total(m) + |keys|
  {
    if keys != [] {
      TallyTotal(m, keys[..|keys| - 1]);
      TotalBump(Tally(m, keys[..|keys| - 1]), keys[|keys| - 1]);
    }
  }

  /** The process-wide dictionary `CITEKEYS` from citation key to number of occurrences. */
  class CitekeyIndex {
    var counts: map<string, nat>

    /** Every registered key has a positive count and carries no surrounding whitespace. */
    ghost predicate Valid()
      reads this
    {
      forall k :: k in counts ==> counts[k] >= 1 && Stripped(ByteString, k)
    }

    constructor ()
      ensures Valid() && counts == map[]
    {
      counts := map[];
    }

    /** One pass of the inner loop of `extract_citekeys`: count `key` once more. */
    method Register(key: string)
      requires Valid() && Stripped(ByteString, key)
      modifies this
      ensures Valid()
      ensures counts == Bump(old(counts), key)
    {
      if key !in counts {
        counts := counts[key := 1];
      } else {
        counts := counts[key := counts[key] + 1];
      }
    }

    /** The inner loop of `extract_citekeys`: count every stripped comma-piece of one group. */
    method RegisterGroup(citation: string)
      requires Valid()
      modifies this
      ensures Valid()
      ensures counts == Tally(old(counts), GroupKeys(citation))
    {
      var pieces := Split(citation, ',');
      for pi := 0 to |pieces|
        invariant Valid()
        invariant counts == Tally(old(counts), StripAll(pieces[..pi]))
      {
        var citekey := Strip(ByteString, pieces[pi]);
        StripAllPrefix(pieces, pi);
        TallySnoc(old(counts), StripAll(pieces[..pi]), citekey);
        Register(citekey);
      }
      assert pieces[..|pieces|] == pieces;
    }

    /** `extract_citekeys(text)`: registers every stripped comma-piece of every match. */
    method ExtractCitekeys(text: string)
      requires Valid()
      modifies this
      ensures Valid()
      ensures counts == Tally(old(counts), CitekeysIn(text))
    {
      var citations := FindCitations(text);
      ghost var done: seq<string> := [];
      for ci := 0 to |citations|
        invariant Valid()
        invariant done == KeysOf(citations[..ci])
        invariant counts == Tally(old(counts), done)
      {
        RegisterGroup(citations[ci]);
        TallyAppend(old(counts), done, GroupKeys(citations[ci]));
        KeysOfPrefix(citations, ci);
        done := done + GroupKeys(citations[ci]);
      }
      assert citations[..|citations|] == citations;
    }
  }

  // Worked examples: the counts for a small text, and the edge cases of the group syntax.


  lemma ExampleGroups()
    ensures Citations("\\cite{A,B} \\citep{A}") == ["A,B", "A"]
  {
    var t := "\\cite{A,B} \\citep{A}";
    ExampleFirstMatch();
    ExampleFirstGroup();
    assert CitationsFrom(t, 0) == [t[6..9]] + CitationsFrom(t, 10);
    ExampleSecondGroup();
  }

  /** The scan from the space after the first group finds the second group only. */
  lemma ExampleSecondGroup()
    ensures CitationsFrom("\\cite{A,B} \\citep{A}", 10) == ["A"]
  {
    var t := "\\cite{A,B} \\citep{A}";
    assert MatchAt(t, 10) == None;
    assert MatchAt(t, 11) == Some((18, 19));
    assert CitationsFrom(t, 20) == [];
    assert t[18..19] == "A";
    assert CitationsFrom(t, 11) == ["A"];
  }

  /** The first marker's group spans indices 6 to 9, ending at the `}`. */
  lemma ExampleFirstMatch()
    ensures MatchAt("\\cite{A,B} \\citep{A}", 0) == Some((6, 9))
  {
  }

  lemma ExampleFirstGroup()
    ensures "\\cite{A,B} \\citep{A}"[6..9] == "A,B"
  {
  }

  lemma ExampleSplit()
    ensures Split("A,B", ',') == ["A", "B"] && Split("A", ',') == ["A"]
  {
    assert Split("", ',') == [""];
    assert "B"[1..] == "" && "A"[1..] == "";
    assert "B"[0] == 'B' && ['B'] + "" == "B" && [""][1..] == [];
    assert Split("B", ',') == ["B"];
    assert "A"[0] == 'A' && ['A'] + "" == "A";
    assert Split("A", ',') == ["A"];
    assert ",B"[1..] == "B";
    assert Split(",B", ',') == ["", "B"];
    assert "A,B"[1..] == ",B";
    assert "A,B"[0] == 'A' && ["", "B"][1..] == ["B"];
  }

  lemma {:induction false} StripAllId(ps: seq<string>)
    requires forall i :: 0 <= i < |ps| ==> Stripped(ByteString, ps[i])
    ensures StripAll(ps) == ps
  {
    if ps != [] {
      var init := ps[..|ps| - 1];
      var last := ps[|ps| - 1];
      assert init + [last] == ps;
      assert forall i :: 0 <= i < |init| ==> init[i] == ps[i];
      StripAllId(init);
      assert Strip(ByteString, last) == last;
    }
  }

  lemma ExampleGroupKeys()
    ensures GroupKeys("A,B") == ["A", "B"] && GroupKeys("A") == ["A"]
  {
    ExampleSplit();
    StripAllId(["A", "B"]);
    StripAllId(["A"]);
  }

  lemma KeysOfPair(g1: string, g2: string)
    ensures KeysOf([g1, g2]) == GroupKeys(g1) + GroupKeys(g2)
  {
    assert [g1, g2][..1] == [g1];
    assert [g1][..0] == [];
  }

  lemma ExampleKeys()
    ensures CitekeysIn("\\cite{A,B} \\citep{A}") == ["A", "B", "A"]
  {
    ExampleGroups();
    ExampleGroupKeys();
    KeysOfPair("A,B", "A");
  }

  lemma ExampleTally()
    ensures Tally(map[], ["A", "B", "A"]) == map["A" := 2, "B" := 1]
  {
    var ks := ["A", "B", "A"];
    assert ks[..2] == ["A", "B"] && ks[..2][..1] == ["A"] && ks[..2][..1][..0] == [];
    assert Tally(map[], ["A"]) == map["A" := 1];
    assert Tally(map[], ["A", "B"]) == map["A" := 1, "B" := 1];
  }

  lemma ExampleCounts()
    ensures Tally(map[], CitekeysIn("\\cite{A,B} \\citep{A}")) == map["A" := 2, "B" := 1]
  {
    ExampleKeys();
    ExampleTally();
  }

  lemma EmptyKey()
    ensures CitekeysIn("\\cite{}") == [""]
  {
    var t := "\\cite{}";
    assert MatchAt(t, 0) == Some((6, 6));
    assert |t| == 7;
    assert CitationsFrom(t, 7) == [];
    assert t[6..6] == "";
    assert CitationsFrom(t, 0) == [t[6..6]] + CitationsFrom(t, 7);
    assert Citations(t) == [""];
    assert GroupKeys("") == [""];
  }

  lemma NewlineEndsGroup()
    ensures Citations("\\cite{A\n}") == []
  {
    var t := "\\cite{A\n}";
    assert MatchAt(t, 0) == None;
    assert CitationsFrom(t, 9) == [];
    assert forall i :: 1 <= i < 9 ==> GroupStart(t, i) == None;
  }

  lemma TrailingComma()
    ensures GroupKeys("A,") == ["A", ""]
  {
    assert Split("", ',') == [""];
    assert ","[1..] == "";
    assert Split(",", ',') == ["", ""];
    assert "A,"[1..] == "," && "A,"[0] == 'A' && ['A'] + "" == "A" && ["", ""][1..] == [""];
    assert Split("A,", ',') == ["A", ""];
    StripAllId(["A", ""]);
  }
}
