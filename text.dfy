/**
 * The Python 2 string operations the script relies on: `strip()`, `split(sep)`,
 * `split()` with no argument, `sep.join(parts)` and `replace(pat, rep)`.
 * `strip()` and `split()` depend on what counts as whitespace, which differs
 * between the two Python 2 string types.
 */
module Text {

  /**
   * The Python 2 string type an operation is applied to: a byte `str` (text
   * read from a file) or `unicode` (text that sqlite returns).
   */
  datatype StringType = ByteString | UnicodeString

  /**
   * What `strip()` and `split()` treat as blank. For a byte `str` this is
   * `string.whitespace`; for `unicode` it is every character that
   * `unicode.isspace()` accepts: the ASCII controls 9 to 13 and 28 to 31, the
   * space, NEL, NO-BREAK SPACE, OGHAM SPACE MARK, MONGOLIAN VOWEL SEPARATOR, the
   * spaces 2000 to 200A, LINE and PARAGRAPH SEPARATOR, NARROW NO-BREAK SPACE,
   * MEDIUM MATHEMATICAL SPACE and IDEOGRAPHIC SPACE (Unicode 5.2, as in Python 2.7).
   */
  predicate IsSpace(t: StringType, c: char) {
    match t
    case ByteString => c == ' ' || c == '\t' || c == '\n' || c == '\r' || c == '\U{B}' || c == '\U{C}'
    case UnicodeString =>
      ('\t' <= c <= '\r') || ('\U{1C}' <= c <= ' ') || c == '\U{85}' || c == '\U{A0}' ||
      c == '\U{1680}' || c == '\U{180E}' || ('\U{2000}' <= c <= '\U{200A}') ||
      c == '\U{2028}' || c == '\U{2029}' || c == '\U{202F}' || c == '\U{205F}' || c == '\U{3000}'
  }

  predicate AllSpace(t: StringType, s: string) {
    forall i :: 0 <= i < |s| ==> IsSpace(t, s[i])
  }

  predicate NoSpace(t: StringType, s: string) {
    forall i :: 0 <= i < |s| ==> !IsSpace(t, s[i])
  }

  /** Printable ASCII other than the space is whitespace for neither string type. */
  lemma PrintableNoSpace(t: StringType, w: string)
    requires forall i :: 0 <= i < |w| ==> ' ' < w[i] <= '~'
    ensures NoSpace(t, w)
  {
  }

  /** Neither begins nor ends with whitespace: what `strip()` returns. */
  predicate Stripped(t: StringType, s: string) {
    s == [] || (!IsSpace(t, s[0]) && !IsSpace(t, s[|s| - 1]))
  }

  /** The first index at or after `i` that does not hold whitespace, or the end. */
  function SkipSpace(t: StringType, s: string, i: nat): (k: nat)
    requires i <= |s|
    ensures i <= k <= |s|
    ensures k < |s| ==> !IsSpace(t, s[k])
    decreases |s| - i
  {
    if i < |s| && IsSpace(t, s[i]) then SkipSpace(t, s, i + 1) else i
  }

  /** Moving down from `j` to `lo`, the first position whose previous character is not whitespace. */
  function BackSpace(t: StringType, s: string, lo: nat, j: nat): (k: nat)
    requires lo <= j <= |s|
    ensures lo <= k <= j
    ensures k > lo ==> !IsSpace(t, s[k - 1])
  {
    if j > lo && IsSpace(t, s[j - 1]) then BackSpace(t, s, lo, j - 1) else j
  }

  lemma {:induction false} SkipSpaceBlank(t: StringType, s: string, i: nat)
    requires i <= |s|
    ensures forall k :: i <= k < SkipSpace(t, s, i) ==> IsSpace(t, s[k])
    decreases |s| - i
  {
    if i < |s| && IsSpace(t, s[i]) {
      SkipSpaceBlank(t, s, i + 1);
    }
  }

  lemma {:induction false} BackSpaceBlank(t: StringType, s: string, lo: nat, j: nat)
    requires lo <= j <= |s|
    ensures forall k :: BackSpace(t, s, lo, j) <= k < j ==> IsSpace(t, s[k])
  {
    if j > lo && IsSpace(t, s[j - 1]) {
      BackSpaceBlank(t, s, lo, j - 1);
    }
  }

  /**
   * `s.strip()`: the result has no whitespace at either end, and a string
   * that already has none is returned as it is.
   */
  function Strip(t: StringType, s: string): (r: string)
    ensures Stripped(t, r)
    ensures Stripped(t, s) ==> r == s
  {
    var a := SkipSpace(t, s, 0);
    s[a..BackSpace(t, s, a, |s|)]
  }

  /** Stripping removes whitespace only: the result is a contiguous part of `s` with blanks around it. */
  lemma StripSlice(t: StringType, s: string) returns (a: nat)
    ensures a + |Strip(t, s)| <= |s| && Strip(t, s) == s[a..a + |Strip(t, s)|]
    ensures AllSpace(t, s[..a]) && AllSpace(t, s[a + |Strip(t, s)|..])
  {
    a := SkipSpace(t, s, 0);
    var b := BackSpace(t, s, a, |s|);
    SkipSpaceBlank(t, s, 0);
    BackSpaceBlank(t, s, a, |s|);
    assert forall k :: 0 <= k < a ==> s[..a][k] == s[k];
    assert forall k :: 0 <= k < |s| - b ==> s[b..][k] == s[b + k];
  }

  /** A string is blank exactly when stripping it leaves nothing. */
  lemma StripEmpty(t: StringType, s: string)
    ensures Strip(t, s) == [] <==> AllSpace(t, s)
  {
    var r := Strip(t, s);
    var a := StripSlice(t, s);
    if r == [] {
      forall i | 0 <= i < |s| ensures IsSpace(t, s[i]) {
        if i < a { assert s[..a][i] == s[i]; } else { assert s[a..][i - a] == s[i]; }
      }
    } else {
      assert s[a] == r[0];
    }
  }

  /** `s.split(sep)` for a one-character separator. */
  function Split(s: string, sep: char): (r: seq<string>)
    ensures |r| >= 1
  {
    if s == [] then [""]
    else
      var rest := Split(s[1..], sep);
      if s[0] == sep then [""] + rest
      else [[s[0]] + rest[0]] + rest[1..]
  }

  /** `sep.join(parts)`. */
  function Join(parts: seq<string>, sep: string): string {
    if |parts| == 0 then ""
    else if |parts| == 1 then parts[0]
    else parts[0] + sep + Join(parts[1..], sep)
  }

  /** No piece holds the separator. */
  lemma {:induction false} SplitPieces(s: string, sep: char)
    ensures forall i :: 0 <= i < |Split(s, sep)| ==> sep !in Split(s, sep)[i]
  {
    if s != [] {
      SplitPieces(s[1..], sep);
    }
  }

  /** Joining the pieces of a split with the separator gives the string back. */
  lemma {:induction false} JoinSplit(s: string, sep: char)
    ensures Join(Split(s, sep), [sep]) == s
  {
    if s != [] {
      JoinSplit(s[1..], sep);
      var rest := Split(s[1..], sep);
      if s[0] != sep && |rest| > 1 {
        assert Join(rest, [sep]) == rest[0] + [sep] + Join(rest[1..], [sep]);
        assert rest[1..][1..] == rest[2..];
      }
    }
  }

  /** A split yields one piece more than the separator has occurrences. */
  lemma {:induction false} SplitCount(s: string, sep: char)
    ensures |Split(s, sep)| == multiset(s)[sep] + 1
  {
    if s != [] {
      SplitCount(s[1..], sep);
      assert s == [s[0]] + s[1..];
    }
  }

  /** The length of the leading run of non-whitespace characters. */
  function WordEnd(t: StringType, s: string): (k: nat)
    ensures k <= |s| && NoSpace(t, s[..k])
    ensures k < |s| ==> IsSpace(t, s[k])
    ensures s != [] && !IsSpace(t, s[0]) ==> k > 0
  {
    if s == [] || IsSpace(t, s[0]) then 0 else 1 + WordEnd(t, s[1..])
  }

  /** `s.split()` with no argument: the maximal runs of non-whitespace. */
  function Words(t: StringType, s: string): seq<string>
    decreases |s|
  {
    if s == [] then []
    else if IsSpace(t, s[0]) then Words(t, s[1..])
    else
      var k := WordEnd(t, s);
      [s[..k]] + Words(t, s[k..])
  }

  /** Every word is non-empty and holds no whitespace. */
  lemma {:induction false} WordsShape(t: StringType, s: string)
    ensures forall i :: 0 <= i < |Words(t, s)| ==> Words(t, s)[i] != [] && NoSpace(t, Words(t, s)[i])
    decreases |s|
  {
    if s != [] {
      if IsSpace(t, s[0]) {
        WordsShape(t, s[1..]);
      } else {
        WordsShape(t, s[WordEnd(t, s)..]);
      }
    }
  }

  /** There are no words exactly when the string is blank. */
  lemma {:induction false} WordsEmpty(t: StringType, s: string)
    ensures Words(t, s) == [] <==> AllSpace(t, s)
    decreases |s|
  {
    if s != [] && IsSpace(t, s[0]) {
      WordsEmpty(t, s[1..]);
      if AllSpace(t, s[1..]) {
        forall i | 0 <= i < |s| ensures IsSpace(t, s[i]) { if i > 0 { assert s[1..][i - 1] == s[i]; } }
      }
    }
  }

  /** Words of leading whitespace followed by `s` are the words of `s`. */
  lemma WordsSkipSpace(t: StringType, c: char, s: string)
    requires IsSpace(t, c)
    ensures Words(t, [c] + s) == Words(t, s)
  {
    assert ([c] + s)[1..] == s;
  }

  /** A word followed by a whitespace character and more text starts the word list. */
  lemma WordsCons(t: StringType, w: string, c: char, s: string)
    requires w != [] && NoSpace(t, w) && IsSpace(t, c)
    ensures Words(t, w + [c] + s) == [w] + Words(t, s)
  {
    var u := w + [c] + s;
    assert u[..|w|] == w;
    WordEndIs(t, u, |w|);
    assert u[|w|..] == [c] + s;
    WordsSkipSpace(t, c, s);
  }

  lemma WordEndIs(t: StringType, s: string, k: nat)
    requires k < |s| && IsSpace(t, s[k]) && NoSpace(t, s[..k])
    ensures WordEnd(t, s) == k
  {
  }

  /** Words joined by single spaces split back into the same words. */
  lemma {:induction false} WordsJoin(t: StringType, ws: seq<string>)
    requires forall i :: 0 <= i < |ws| ==> ws[i] != [] && NoSpace(t, ws[i])
    ensures Words(t, Join(ws, " ")) == ws
  {
    if |ws| == 1 {
      var w := ws[0];
      assert WordEnd(t, w) == |w|;
      assert w[..|w|] == w && w[|w|..] == [];
    } else if |ws| > 1 {
      WordsJoin(t, ws[1..]);
      WordsCons(t, ws[0], ' ', Join(ws[1..], " "));
    }
  }

  /** `pat` occurs in `s` at index `i`. */
  predicate OccursAt(pat: string, s: string, i: nat) {
    i + |pat| <= |s| && s[i..i + |pat|] == pat
  }

  /**
   * `s.replace(pat, rep)`: occurrences are found left to right and do not
   * overlap.
   */
  function Replace(s: string, pat: string, rep: string): string
    requires pat != []
    decreases |s|
  {
    if |pat| <= |s| && s[..|pat|] == pat then rep + Replace(s[|pat|..], pat, rep)
    else if s == [] then []
    else [s[0]] + Replace(s[1..], pat, rep)
  }

  /** A string in which `pat` does not occur is returned unchanged. */
  lemma {:induction false} ReplaceAbsent(s: string, pat: string, rep: string)
    requires pat != []
    requires forall i :: 0 <= i < |s| ==> !OccursAt(pat, s, i)
    ensures Replace(s, pat, rep) == s
    decreases |s|
  {
    if s != [] {
      assert !OccursAt(pat, s, 0);
      forall i | 0 <= i < |s| - 1 ensures !OccursAt(pat, s[1..], i) {
        assert !OccursAt(pat, s, i + 1);
        if i + |pat| <= |s| - 1 {
          assert s[1..][i..i + |pat|] == s[i + 1..i + 1 + |pat|];
        }
      }
      ReplaceAbsent(s[1..], pat, rep);
    }
  }

  /** Without the separator there is a single piece. */
  lemma {:induction false} SplitNone(s: string, sep: char)
    requires sep !in s
    ensures Split(s, sep) == [s]
  {
    if s != [] {
      SplitNone(s[1..], sep);
      assert [s[0]] + s[1..] == s;
    }
  }

  /** The piece before the first separator comes first, then the pieces of the rest. */
  lemma {:induction false} SplitFirst(a: string, b: string, sep: char)
    requires sep !in a
    ensures Split(a + [sep] + b, sep) == [a] + Split(b, sep)
  {
    var s := a + [sep] + b;
    if a == [] {
      assert s[1..] == b;
    } else {
      SplitFirst(a[1..], b, sep);
      assert s[1..] == a[1..] + [sep] + b;
      assert [a[0]] + a[1..] == a;
    }
  }

  /** Characters that cannot start an occurrence are copied as they are. */
  lemma {:induction false} ReplaceKeep(a: string, b: string, pat: string, rep: string)
    requires pat != [] && pat[0] !in a
    ensures Replace(a + b, pat, rep) == a + Replace(b, pat, rep)
  {
    var s := a + b;
    if a == [] {
      assert s == b;
    } else {
      assert |pat| <= |s| ==> s[..|pat|][0] == a[0];
      ReplaceKeep(a[1..], b, pat, rep);
      assert s[1..] == a[1..] + b;
    }
  }

  /** An occurrence at the front is replaced and scanning resumes after it. */
  lemma ReplaceHit(pat: string, b: string, rep: string)
    requires pat != []
    ensures Replace(pat + b, pat, rep) == rep + Replace(b, pat, rep)
  {
    var s := pat + b;
    assert s[..|pat|] == pat;
    assert s[|pat|..] == b;
  }
}
