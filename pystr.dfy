/** The Python string builtins the message handler relies on, for the cases it uses them:
    `str.strip()` with no argument, `str.replace(tok, "")` with a non-empty `tok`,
    `str.split(tok)` and `"".join(...)` / `tok.join(...)`.  Strings are sequences of
    code points, as Python's `str` is. */
module PyStr {

  /** The code points Python 3 treats as whitespace (Unicode bidirectional classes
      WS, B, S and general category Zs). */
  const Whitespace: set<char> := {
    ' ', '\t', '\n', '\U{B}', '\U{C}', '\r', '\U{1C}', '\U{1D}', '\U{1E}', '\U{1F}',
    '\U{85}', '\U{A0}', '\U{1680}',
    '\U{2000}', '\U{2001}', '\U{2002}', '\U{2003}', '\U{2004}', '\U{2005}',
    '\U{2006}', '\U{2007}', '\U{2008}', '\U{2009}', '\U{200A}',
    '\U{2028}', '\U{2029}', '\U{202F}', '\U{205F}', '\U{3000}'}

  /** `c.isspace()`. */
  predicate IsSpace(c: char) {
    c in Whitespace
  }

  /** No visible ASCII character is whitespace. */
  lemma PrintableIsNotSpace(c: char)
    requires '!' <= c <= '~'
    ensures !IsSpace(c)
  {
  }

  /** Every character of `s[lo..hi]` is whitespace. */
  predicate SpaceOnly(s: string, lo: int, hi: int) {
    0 <= lo <= hi <= |s| && forall m | lo <= m < hi :: IsSpace(s[m])
  }

  /** `s.lstrip()`: the suffix of `s` left after dropping leading whitespace. */
  function TrimStart(s: string): (r: string)
    ensures |r| <= |s| && r == s[|s| - |r|..]
    ensures SpaceOnly(s, 0, |s| - |r|)
    ensures r == [] || !IsSpace(r[0])
    decreases |s|
  {
    if s != [] && IsSpace(s[0]) then TrimStart(s[1..]) else s
  }

  /** `s.rstrip()`: the prefix of `s` left after dropping trailing whitespace. */
  function TrimEnd(s: string): (r: string)
    ensures |r| <= |s| && r == s[..|r|]
    ensures SpaceOnly(s, |r|, |s|)
    ensures r == [] || !IsSpace(r[|r| - 1])
    decreases |s|
  {
    if s != [] && IsSpace(s[|s| - 1]) then TrimEnd(s[..|s| - 1]) else s
  }

  /** Whether `r` is the slice of `s` at `i` with nothing but whitespace on either side. */
  predicate IsSpaceFramedSlice(s: string, r: string, i: int) {
    0 <= i <= |s| - |r| && r == s[i..i + |r|] && SpaceOnly(s, 0, i) && SpaceOnly(s, i + |r|, |s|)
  }

  /** `s.strip()`: the slice of `s` between its leading and its trailing whitespace. */
  function Strip(s: string): (r: string)
    ensures |r| <= |s|
    ensures r == [] <==> SpaceOnly(s, 0, |s|)
    ensures r != [] ==> !IsSpace(r[0]) && !IsSpace(r[|r| - 1])
  {
    var t := TrimStart(s);
    StripEmpty(s, t);
    TrimEnd(t)
  }

  /** Stripping leaves nothing exactly when the text is all whitespace. */
  lemma StripEmpty(s: string, t: string)
    requires t == TrimStart(s)
    ensures TrimEnd(t) == [] <==> SpaceOnly(s, 0, |s|)
  {
    var r := TrimEnd(t);
    var i := |s| - |t|;
    if t != [] {
      assert t[0] == s[i];
    }
  }

  /** What `strip` keeps is the slice of `s` with nothing but whitespace on either side. */
  lemma StripIsFramedSlice(s: string)
    ensures IsSpaceFramedSlice(s, Strip(s), |s| - |TrimStart(s)|)
  {
    var t := TrimStart(s);
    var r := TrimEnd(t);
    assert Strip(s) == r;
    TrimmedBothEnds(s, t, r);
  }

  /** A whitespace-framed suffix of `s` with its own trailing whitespace removed is a
      whitespace-framed slice of `s`. */
  lemma TrimmedBothEnds(s: string, t: string, r: string)
    requires |t| <= |s| && t == s[|s| - |t|..] && SpaceOnly(s, 0, |s| - |t|)
    requires |r| <= |t| && r == t[..|r|] && SpaceOnly(t, |r|, |t|)
    ensures IsSpaceFramedSlice(s, r, |s| - |t|)
  {
    var i := |s| - |t|;
    SliceOfSuffix(s, t, r, i);
    SpaceOnlyShift(s, t, i, |r|);
  }

  /** A prefix of a suffix is a slice. */
  lemma SliceOfSuffix(s: string, t: string, r: string, i: int)
    requires 0 <= i <= |s| && t == s[i..] && |r| <= |t| && r == t[..|r|]
    ensures r == s[i..i + |r|]
  {
  }

  /** Whitespace at the end of a suffix is whitespace at the end of the whole. */
  lemma SpaceOnlyShift(s: string, t: string, i: int, k: int)
    requires 0 <= i <= |s| && t == s[i..] && SpaceOnly(t, k, |t|)
    ensures SpaceOnly(s, i + k, |s|)
  {
    forall m | i + k <= m < |s| ensures IsSpace(s[m]) {
      assert s[m] == t[m - i];
    }
  }

  /** Dropping leading whitespace is determined by the first non-whitespace position. */
  lemma TrimStartAt(s: string, i: int)
    requires SpaceOnly(s, 0, i) && (i < |s| ==> !IsSpace(s[i]))
    ensures TrimStart(s) == s[i..]
  {
    var t := TrimStart(s);
    var k := |s| - |t|;
    assert SpaceOnly(s, 0, k) && t == s[k..];
    assert k < |s| ==> !IsSpace(s[k]) by {
      if k < |s| {
        assert t[0] == s[k];
      }
    }
    assert i < |s| ==> !IsSpace(s[i]);
    assert k == i;
  }

  /** Dropping trailing whitespace is determined by the last non-whitespace position. */
  lemma TrimEndAt(s: string, j: int)
    requires SpaceOnly(s, j, |s|) && (0 < j ==> !IsSpace(s[j - 1]))
    ensures TrimEnd(s) == s[..j]
  {
    var t := TrimEnd(s);
    assert t != [] ==> t[|t| - 1] == s[|t| - 1];
    assert |t| == j;
  }

  /** `strip` is characterised by its margins: any split of `s` into whitespace,
      a slice that neither starts nor ends with whitespace, and whitespace, is the one
      `Strip` finds. */
  lemma StripAt(s: string, i: int, j: int)
    requires i <= j
    requires SpaceOnly(s, 0, i) && SpaceOnly(s, j, |s|)
    requires i < j ==> !IsSpace(s[i]) && !IsSpace(s[j - 1])
    ensures Strip(s) == s[i..j]
  {
    if i < j {
      TrimStartAt(s, i);
      TrimEndOfSuffix(s, i, j);
    } else {
      assert SpaceOnly(s, 0, |s|);
    }
  }

  /** `rstrip` of the suffix at `i` stops at the last non-whitespace position `j`. */
  lemma TrimEndOfSuffix(s: string, i: int, j: int)
    requires 0 <= i < j && SpaceOnly(s, j, |s|) && !IsSpace(s[j - 1])
    ensures TrimEnd(s[i..]) == s[i..j]
  {
    var t := s[i..];
    assert forall m | j - i <= m < |t| :: t[m] == s[m + i];
    assert t[j - i - 1] == s[j - 1];
    TrimEndAt(t, j - i);
    assert t[..j - i] == s[i..j];
  }

  // ---------------------------------------------------------------------------
  // replace / split / join

  /** Whether an occurrence of `tok` begins at position `j` of `s`. */
  predicate StartsAt(s: string, tok: string, j: int) {
    0 <= j <= |s| && tok <= s[j..]
  }

  /** No occurrence of `tok` begins at any of the first `n` positions of `s`. */
  ghost predicate NoMatchBefore(s: string, tok: string, n: int) {
    forall j | 0 <= j < n :: !StartsAt(s, tok, j)
  }

  /** `s.replace(tok, "")`: one left-to-right pass that removes non-overlapping
      occurrences of `tok`, without rescanning what the removal brings together. */
  function RemoveAll(s: string, tok: string): (r: string)
    requires tok != []
    ensures |r| <= |s|
    decreases |s|
  {
    if s == [] then []
    else if tok <= s then RemoveAll(s[|tok|..], tok)
    else [s[0]] + RemoveAll(s[1..], tok)
  }

  /** `sep.join(ps)` for a non-empty list. */
  function Join(ps: seq<string>, sep: string): string
    requires ps != []
    decreases |ps|
  {
    if |ps| == 1 then ps[0] else ps[0] + sep + Join(ps[1..], sep)
  }

  /** `"".join(ps)`. */
  function Concat(ps: seq<string>): string
    decreases |ps|
  {
    if ps == [] then [] else ps[0] + Concat(ps[1..])
  }

  /** `s.split(tok)`: the pieces between the non-overlapping occurrences of `tok`,
      found left to right. */
  function Split(s: string, tok: string): (ps: seq<string>)
    requires tok != []
    ensures ps != []
    decreases |s|
  {
    if s == [] then [[]]
    else if tok <= s then [[]] + Split(s[|tok|..], tok)
    else
      var rest := Split(s[1..], tok);
      [[s[0]] + rest[0]] + rest[1..]
  }

  /** A piece of a left-to-right split: no occurrence of `tok` starts inside it, neither
      one that lies within it nor (for a piece followed by a separator) one that runs
      into that separator. */
  ghost predicate IsLeftmostPiece(p: string, tok: string, last: bool) {
    if last then NoMatchBefore(p, tok, |p|) else NoMatchBefore(p + tok, tok, |p|)
  }

  /** `ps` splits `s` at the occurrences of `tok` that a left-to-right scan finds. */
  ghost predicate IsLeftmostSplit(s: string, tok: string, ps: seq<string>) {
    ps != [] && Join(ps, tok) == s
    && forall i | 0 <= i < |ps| :: IsLeftmostPiece(ps[i], tok, i == |ps| - 1)
  }

  /** Text before which no occurrence starts is kept as it is. */
  lemma {:induction false} RemoveAllKeepsUnmatched(p: string, t: string, tok: string)
    requires tok != []
    requires NoMatchBefore(p + t, tok, |p|)
    ensures RemoveAll(p + t, tok) == p + RemoveAll(t, tok)
    decreases |p|
  {
    if p == [] {
      assert p + t == t;
    } else {
      assert !StartsAt(p + t, tok, 0);
      assert (p + t)[0..] == p + t;
      assert (p + t)[1..] == p[1..] + t;
      forall j | 0 <= j < |p[1..]| ensures !StartsAt(p[1..] + t, tok, j) {
        assert (p[1..] + t)[j..] == (p + t)[j + 1..];
        assert !StartsAt(p + t, tok, j + 1);
      }
      RemoveAllKeepsUnmatched(p[1..], t, tok);
      assert [p[0]] + p[1..] == p;
    }
  }

  /** A match test that fits inside `u` is not affected by what follows `u`. */
  lemma PrefixOfLonger(tok: string, u: string, x: string)
    requires |tok| <= |u|
    ensures tok <= u + x <==> tok <= u
  {
    assert (u + x)[..|tok|] == u[..|tok|];
  }

  /** The leftmost condition of a non-final piece holds in any continuation. */
  lemma NoMatchBeforeExtends(p: string, tok: string, x: string)
    requires NoMatchBefore(p + tok, tok, |p|)
    ensures NoMatchBefore(p + tok + x, tok, |p|)
  {
    forall j | 0 <= j < |p| ensures !StartsAt(p + tok + x, tok, j) {
      assert (p + tok + x)[j..] == (p + tok)[j..] + x;
      PrefixOfLonger(tok, (p + tok)[j..], x);
      assert !StartsAt(p + tok, tok, j);
    }
  }

  /** Removing `tok` from `s` concatenates the pieces of any left-to-right split of `s`
      at `tok`: `s.replace(tok, "") == "".join(pieces)`. */
  lemma {:induction false} RemoveAllConcatsPieces(s: string, tok: string, ps: seq<string>)
    requires tok != [] && IsLeftmostSplit(s, tok, ps)
    ensures RemoveAll(s, tok) == Concat(ps)
    decreases |ps|
  {
    var p := ps[0];
    assert IsLeftmostPiece(ps[0], tok, 0 == |ps| - 1);
    if |ps| == 1 {
      assert s == p + [];
      RemoveAllKeepsUnmatched(p, [], tok);
      assert Concat(ps) == p + Concat([]);
    } else {
      var rest := ps[1..];
      var tail := Join(rest, tok);
      assert s == p + tok + tail;
      forall i | 0 <= i < |rest| ensures IsLeftmostPiece(rest[i], tok, i == |rest| - 1) {
        assert rest[i] == ps[i + 1];
        assert IsLeftmostPiece(ps[i + 1], tok, i + 1 == |ps| - 1);
      }
      assert IsLeftmostSplit(tail, tok, rest);
      NoMatchBeforeExtends(p, tok, tail);
      assert p + tok + tail == p + (tok + tail);
      RemoveAllKeepsUnmatched(p, tok + tail, tok);
      assert (tok + tail)[|tok|..] == tail;
      RemoveAllConcatsPieces(tail, tok, rest);
    }
  }

  /** The first piece of a split that does not start with `tok` keeps its leftmost
      property when the first character is put back. */
  lemma ConsPieceLeftmost(s: string, tok: string, rest: seq<string>, last: bool)
    requires tok != [] && s != [] && !(tok <= s) && rest != []
    requires IsLeftmostPiece(rest[0], tok, last)
    requires last ==> s == [s[0]] + rest[0]
    requires !last ==> 1 + |rest[0]| + |tok| <= |s| && s[..1 + |rest[0]| + |tok|] == [s[0]] + rest[0] + tok
    ensures IsLeftmostPiece([s[0]] + rest[0], tok, last)
  {
    var head := [s[0]] + rest[0];
    var a := if last then head else head + tok;
    var a' := if last then rest[0] else rest[0] + tok;
    assert a == [s[0]] + a';
    assert s[..|a|] == a;
    forall j | 0 <= j < |head| ensures !StartsAt(a, tok, j) {
      if j == 0 {
        assert s == a + s[|a|..];
        if |tok| <= |a| {
          PrefixOfLonger(tok, a, s[|a|..]);
        }
      } else {
        assert a[j..] == a'[j - 1..];
        assert !StartsAt(a', tok, j - 1);
      }
    }
  }

  /** `s.split(tok)` is the left-to-right split, so in particular
      `tok.join(s.split(tok)) == s`. */
  lemma {:induction false} SplitIsLeftmost(s: string, tok: string)
    requires tok != []
    ensures IsLeftmostSplit(s, tok, Split(s, tok))
    decreases |s|
  {
    if s == [] {
      var ps := Split(s, tok);
      assert ps == [[]];
      assert IsLeftmostPiece(ps[0], tok, true);
    } else if tok <= s {
      SplitIsLeftmost(s[|tok|..], tok);
      ConsEmptyPiece(s[|tok|..], tok, Split(s[|tok|..], tok));
      assert s == tok + s[|tok|..];
    } else {
      SplitIsLeftmost(s[1..], tok);
      SplitAfterChar(s, tok);
    }
  }

  /** A text that starts with the token splits into an empty piece and the pieces
      of the rest. */
  lemma ConsEmptyPiece(s: string, tok: string, rest: seq<string>)
    requires IsLeftmostSplit(s, tok, rest)
    ensures IsLeftmostSplit(tok + s, tok, [[]] + rest)
  {
    var ps := [[]] + rest;
    assert ps[1..] == rest;
    assert Join(ps, tok) == [] + tok + Join(rest, tok);
    forall i | 0 <= i < |ps| ensures IsLeftmostPiece(ps[i], tok, i == |ps| - 1) {
      if i > 0 {
        assert ps[i] == rest[i - 1];
        assert IsLeftmostPiece(rest[i - 1], tok, i - 1 == |rest| - 1);
      }
    }
  }

  /** A character that starts no token joins the first piece of the rest. */
  lemma SplitAfterChar(s: string, tok: string)
    requires tok != [] && s != [] && !(tok <= s)
    requires IsLeftmostSplit(s[1..], tok, Split(s[1..], tok))
    ensures IsLeftmostSplit(s, tok, Split(s, tok))
  {
    var ps := Split(s, tok);
    var s' := s[1..];
    var rest := Split(s', tok);
    var head := [s[0]] + rest[0];
    assert ps == [head] + rest[1..];
    assert IsLeftmostPiece(rest[0], tok, 0 == |rest| - 1);
    if |rest| == 1 {
      assert Join(ps, tok) == head == s;
      ConsPieceLeftmost(s, tok, rest, true);
    } else {
      SplitAfterCharJoin(s, tok, rest);
      ConsPieceLeftmost(s, tok, rest, false);
    }
    forall i | 0 <= i < |ps| ensures IsLeftmostPiece(ps[i], tok, i == |ps| - 1) {
      if i > 0 {
        assert ps[i] == rest[i];
        assert IsLeftmostPiece(rest[i], tok, i == |rest| - 1);
      }
    }
  }

  /** Joining a split whose first piece grew by one character. */
  lemma SplitAfterCharJoin(s: string, tok: string, rest: seq<string>)
    requires tok != [] && s != [] && |rest| > 1 && Join(rest, tok) == s[1..]
    ensures Join([[s[0]] + rest[0]] + rest[1..], tok) == s
    ensures s[..1 + |rest[0]| + |tok|] == [s[0]] + rest[0] + tok
  {
    var ps := [[s[0]] + rest[0]] + rest[1..];
    assert ps[1..] == rest[1..];
    assert Join(rest, tok) == rest[0] + tok + Join(rest[1..], tok);
    assert Join(ps, tok) == [s[0]] + rest[0] + tok + Join(rest[1..], tok);
    assert s == [s[0]] + s[1..];
  }

  /** `s.replace(tok, "") == "".join(s.split(tok))`: removal keeps exactly the text
      between the occurrences that a left-to-right scan finds. */
  lemma RemoveAllIsConcatOfSplit(s: string, tok: string)
    requires tok != []
    ensures RemoveAll(s, tok) == Concat(Split(s, tok))
    ensures Join(Split(s, tok), tok) == s
  {
    SplitIsLeftmost(s, tok);
    RemoveAllConcatsPieces(s, tok, Split(s, tok));
  }
}
