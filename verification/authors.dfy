/** The author column: a `|`-separated string, split and stripped as
    `[a.strip() for a in str(raw).split('|')]`. */
module Authors {

  /** Python's `str.split(sep)` for a one-character separator: the pieces
      between separators, empty ones included. */
  function Split(s: string, sep: char): (pieces: seq<string>)
    ensures |pieces| > 0
  {
    if s == [] then [""]
    else
      var rest := Split(s[1..], sep);
      if s[0] == sep then [""] + rest
      else [[s[0]] + rest[0]] + rest[1..]
  }

  /** There is one piece more than there are separators, and no piece holds
      a separator. */
  lemma {:induction false} SplitPieces(s: string, sep: char)
    ensures |Split(s, sep)| == multiset(s)[sep] + 1
    ensures forall i :: 0 <= i < |Split(s, sep)| ==> sep !in Split(s, sep)[i]
  {
    if s != [] {
      SplitPieces(s[1..], sep);
      assert s == [s[0]] + s[1..];
      var rest := Split(s[1..], sep);
      if s[0] != sep {
        var pieces := Split(s, sep);
        forall i | 0 <= i < |pieces|
          ensures sep !in pieces[i]
        {
          if i == 0 {
            assert pieces[0] == [s[0]] + rest[0];
          } else {
            assert pieces[i] == rest[i];
          }
        }
      }
    }
  }

  /** `sep.join(pieces)`. */
  function Join(pieces: seq<string>, sep: char): string
    requires |pieces| > 0
  {
    if |pieces| == 1 then pieces[0] else pieces[0] + [sep] + Join(pieces[1..], sep)
  }

  /** Putting a character in front of the first piece puts it in front of
      the joined string. */
  lemma JoinPrepend(c: char, pieces: seq<string>, sep: char)
    requires |pieces| > 0
    ensures Join([[c] + pieces[0]] + pieces[1..], sep) == [c] + Join(pieces, sep)
  {
    var q := [[c] + pieces[0]] + pieces[1..];
    assert q[1..] == pieces[1..];
    if |pieces| > 1 {
      calc {
        Join(q, sep);
        q[0] + [sep] + Join(q[1..], sep);
        [c] + (pieces[0] + [sep] + Join(pieces[1..], sep));
        [c] + Join(pieces, sep);
      }
    }
  }

  /** Joining a piece in front of non-empty pieces. */
  lemma JoinCons(p: string, pieces: seq<string>, sep: char)
    requires |pieces| > 0
    ensures Join([p] + pieces, sep) == p + [sep] + Join(pieces, sep)
  {
    assert ([p] + pieces)[1..] == pieces;
  }

  /** Joining the pieces gives back the string. */
  lemma {:induction false} JoinSplit(s: string, sep: char)
    ensures Join(Split(s, sep), sep) == s
  {
    if s != [] {
      var rest := Split(s[1..], sep);
      JoinSplit(s[1..], sep);
      assert s == [s[0]] + s[1..];
      if s[0] == sep {
        assert Split(s, sep) == [""] + rest;
        JoinCons("", rest, sep);
      } else {
        assert Split(s, sep) == [[s[0]] + rest[0]] + rest[1..];
        JoinPrepend(s[0], rest, sep);
      }
    }
  }

  /** A piece without separators splits to itself. */
  lemma {:induction false} SplitPlain(s: string, sep: char)
    requires sep !in s
    ensures Split(s, sep) == [s]
  {
    if s != [] {
      assert s == [s[0]] + s[1..];
      SplitPlain(s[1..], sep);
    }
  }

  /** Splitting at the first separator. */
  lemma {:induction false} SplitAtSeparator(x: string, sep: char, rest: string)
    requires sep !in x
    ensures Split(x + [sep] + rest, sep) == [x] + Split(rest, sep)
  {
    var s := x + [sep] + rest;
    if x == [] {
      assert s == [sep] + rest;
      assert Split(s, sep) == [""] + Split(s[1..], sep);
      assert s[1..] == rest;
    } else {
      var tail := x[1..] + [sep] + rest;
      assert s == [x[0]] + tail;
      assert s[1..] == tail;
      SplitAtSeparator(x[1..], sep, rest);
      var r := Split(tail, sep);
      assert r == [x[1..]] + Split(rest, sep);
      assert Split(s, sep) == [[x[0]] + r[0]] + r[1..];
      assert [x[0]] + r[0] == x;
      assert r[1..] == Split(rest, sep);
    }
  }

  /** Splitting undoes joining, when no piece holds the separator. */
  lemma {:induction false} SplitJoin(pieces: seq<string>, sep: char)
    requires |pieces| > 0
    requires forall i :: 0 <= i < |pieces| ==> sep !in pieces[i]
    ensures Split(Join(pieces, sep), sep) == pieces
  {
    if |pieces| == 1 {
      SplitPlain(pieces[0], sep);
    } else {
      SplitJoin(pieces[1..], sep);
      SplitAtSeparator(pieces[0], sep, Join(pieces[1..], sep));
      assert pieces == [pieces[0]] + pieces[1..];
    }
  }

  /** The characters Python's `str.strip()` removes (those for which
      `str.isspace()` holds). */
  predicate IsSpace(c: char) {
    || c == ' ' || c == '\t' || c == '\n' || c == '\r'
    || c == '\U{000B}' || c == '\U{000C}'
    || ('\U{001C}' <= c <= '\U{001F}')
    || c == '\U{0085}' || c == '\U{00A0}' || c == '\U{1680}'
    || ('\U{2000}' <= c <= '\U{200A}')
    || c == '\U{2028}' || c == '\U{2029}' || c == '\U{202F}' || c == '\U{205F}' || c == '\U{3000}'
  }

  predicate AllSpace(s: string) {
    forall i :: 0 <= i < |s| ==> IsSpace(s[i])
  }

  /** `str.lstrip()`. */
  function TrimStart(s: string): (r: string)
    ensures |r| <= |s| && r == s[|s| - |r|..]
    ensures AllSpace(s[..|s| - |r|])
    ensures r == [] || !IsSpace(r[0])
  {
    if s != [] && IsSpace(s[0]) then
      var r := TrimStart(s[1..]);
      assert s[..|s| - |r|] == [s[0]] + s[1..][..|s| - 1 - |r|];
      r
    else s
  }

  /** `str.rstrip()`. */
  function TrimEnd(s: string): (r: string)
    ensures |r| <= |s| && r == s[..|r|]
    ensures AllSpace(s[|r|..])
    ensures r == [] || !IsSpace(r[|r| - 1])
  {
    if s != [] && IsSpace(s[|s| - 1]) then
      var r := TrimEnd(s[..|s| - 1]);
      assert s[|r|..] == s[..|s| - 1][|r|..] + [s[|s| - 1]];
      r
    else s
  }

  /** How many whitespace characters `s` starts with. */
  function LeadingSpace(s: string): (n: nat)
    ensures n <= |s| && AllSpace(s[..n])
    ensures n < |s| ==> !IsSpace(s[n])
  {
    var t := TrimStart(s);
    assert t != [] ==> s[|s| - |t|] == t[0];
    |s| - |t|
  }

  /** `str.strip()`: the text with its leading and trailing whitespace cut
      off. The result starts where the leading whitespace ends, and what
      follows it is whitespace too. */
  function Strip(s: string): (r: string)
    ensures LeadingSpace(s) + |r| <= |s|
    ensures r == s[LeadingSpace(s)..LeadingSpace(s) + |r|]
    ensures AllSpace(s[LeadingSpace(s) + |r|..])
  {
    var t := TrimStart(s);
    var r := TrimEnd(t);
    assert s[LeadingSpace(s) + |r|..] == t[|r|..];
    r
  }

  /** A stripped text neither starts nor ends with whitespace. */
  lemma StripEnds(s: string)
    ensures Strip(s) == [] || (!IsSpace(Strip(s)[0]) && !IsSpace(Strip(s)[|Strip(s)| - 1]))
  {
    var t := TrimStart(s);
    var r := Strip(s);
    assert r == TrimEnd(t);
    if r != [] {
      assert r[0] == t[0];
    }
  }

  /** Stripping removes characters only from the ends, so a character
      absent from the string is absent from the result. */
  lemma StripInside(s: string, c: char)
    requires c !in s
    ensures c !in Strip(s)
  {
    SliceExcludes(s, LeadingSpace(s), LeadingSpace(s) + |Strip(s)|, c);
  }

  /** A slice holds nothing its whole does not. */
  lemma SliceExcludes(s: string, i: nat, j: nat, c: char)
    requires i <= j <= |s| && c !in s
    ensures c !in s[i..j]
  {
    forall k | 0 <= k < j - i
      ensures s[i..j][k] != c
    {
      assert s[i..j][k] == s[i + k];
    }
  }

  /** The author names of an author string: every `|`-separated piece,
      stripped. Empty pieces are kept, so `"A||B"` credits an author `""`. */
  function AuthorNames(raw: string): seq<string> {
    var pieces := Split(raw, '|');
    seq(|pieces|, i requires 0 <= i < |pieces| => Strip(pieces[i]))
  }

  /** There is one name more than there are `|` separators, and no name
      holds a `|`. */
  lemma AuthorNamesShape(raw: string)
    ensures |AuthorNames(raw)| == multiset(raw)['|'] + 1
    ensures forall i :: 0 <= i < |AuthorNames(raw)| ==> '|' !in AuthorNames(raw)[i]
  {
    SplitPieces(raw, '|');
    var pieces := Split(raw, '|');
    forall i | 0 <= i < |pieces|
      ensures '|' !in AuthorNames(raw)[i]
    {
      StripInside(pieces[i], '|');
    }
  }

  /** No name starts or ends with whitespace: `strip` removed it. */
  lemma AuthorNamesStripped(raw: string, i: nat)
    requires i < |AuthorNames(raw)|
    ensures AuthorNames(raw)[i] == []
      || (!IsSpace(AuthorNames(raw)[i][0]) && !IsSpace(AuthorNames(raw)[i][|AuthorNames(raw)[i]| - 1]))
  {
    assert AuthorNames(raw)[i] == Strip(Split(raw, '|')[i]);
    StripEnds(Split(raw, '|')[i]);
  }
}
