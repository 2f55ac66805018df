/** The string handling that the extractor borrows from Go's `strings`
    package: `TrimSpace`, `Split` on a single separator, and the token lists
    built from them for `itemtype`, `itemref` and `itemprop`. */
module Text {

  /** The characters Go's `unicode.IsSpace` accepts, which is what
      `strings.TrimSpace` strips from both ends of a string. */
  predicate IsSpace(c: char)
  {
    || c == ' ' || c == '\t' || c == '\n' || c == '\r'
    || c == '\U{000B}' || c == '\U{000C}' || c == '\U{0085}' || c == '\U{00A0}'
    || c == '\U{1680}' || ('\U{2000}' <= c <= '\U{200A}')
    || c == '\U{2028}' || c == '\U{2029}' || c == '\U{202F}' || c == '\U{205F}'
    || c == '\U{3000}'
  }

  predicate AllSpace(s: string)
  {
    forall i :: 0 <= i < |s| ==> IsSpace(s[i])
  }

  /** Neither end of `s` is white space. */
  predicate IsTrimmed(s: string)
  {
    |s| == 0 || (!IsSpace(s[0]) && !IsSpace(s[|s| - 1]))
  }

  /** Drops the white space at the front of `s`. */
  function TrimLeft(s: string): (r: string)
    ensures |r| <= |s| && r == s[|s| - |r|..]
    ensures AllSpace(s[..|s| - |r|])
    ensures |r| == 0 || !IsSpace(r[0])
    decreases |s|
  {
    if |s| > 0 && IsSpace(s[0]) then
      var r := TrimLeft(s[1..]);
      assert s[..|s| - |r|] == [s[0]] + s[1..][..|s| - 1 - |r|];
      r
    else
      s
  }

  /** Drops the white space at the back of `s`. */
  function TrimRight(s: string): (r: string)
    ensures |r| <= |s| && r == s[..|r|]
    ensures AllSpace(s[|r|..])
    ensures |r| == 0 || !IsSpace(r[|r| - 1])
    decreases |s|
  {
    if |s| > 0 && IsSpace(s[|s| - 1]) then
      var r := TrimRight(s[..|s| - 1]);
      assert s[|r|..] == s[..|s| - 1][|r|..] + [s[|s| - 1]];
      r
    else
      s
  }

  /** Go's `strings.TrimSpace`: the middle of `s` between its leading and
      trailing white space. */
  function TrimSpace(s: string): (r: string)
    ensures IsTrimmed(r)
    ensures IsTrimmed(s) ==> r == s
    ensures exists i, j :: 0 <= i <= j <= |s| && r == s[i..j] && AllSpace(s[..i]) && AllSpace(s[j..])
  {
    var l := TrimLeft(s);
    var r := TrimRight(l);
    assert |r| > 0 ==> r[0] == l[0];
    TrimCut(s, l, r);
    r
  }

  /** Trimming both ends cuts a white-space prefix and a white-space suffix
      off `s`. */
  lemma TrimCut(s: string, l: string, r: string)
    requires |l| <= |s| && l == s[|s| - |l|..] && AllSpace(s[..|s| - |l|])
    requires |r| <= |l| && r == l[..|r|] && AllSpace(l[|r|..])
    ensures exists i, j :: 0 <= i <= j <= |s| && r == s[i..j] && AllSpace(s[..i]) && AllSpace(s[j..])
  {
    var i := |s| - |l|;
    var j := i + |r|;
    assert l == s[i..] && r == l[..|r|];
    forall k | 0 <= k < |r|
      ensures s[i..j][k] == r[k]
    {
      assert r[k] == l[k] == s[i + k];
    }
    assert s[i..j] == r;
    forall k | 0 <= k < |s| - j
      ensures s[j..][k] == l[|r|..][k]
    {
      assert s[j..][k] == s[j + k];
      assert l[|r|..][k] == l[|r| + k] == s[i + |r| + k];
    }
    assert s[j..] == l[|r|..];
    assert AllSpace(s[..i]) && AllSpace(s[j..]);
  }

  /** Go's `strings.Split(s, sep)` for a one-character separator: the pieces
      of `s` around every occurrence of `sep`, always at least one. */
  function Split(s: string, sep: char): (r: seq<string>)
    ensures |r| >= 1
  {
    if |s| == 0 then [""]
    else
      var rest := Split(s[1..], sep);
      if s[0] == sep then [""] + rest
      else [[s[0]] + rest[0]] + rest[1..]
  }

  /** The pieces joined back together with `sep` between neighbours. */
  function Join(parts: seq<string>, sep: char): string
  {
    if |parts| == 0 then ""
    else if |parts| == 1 then parts[0]
    else parts[0] + [sep] + Join(parts[1..], sep)
  }

  /** A token as the extractor emits it: non-empty, free of the space
      separator and trimmed. */
  predicate IsToken(t: string)
  {
    |t| > 0 && ' ' !in t && IsTrimmed(t)
  }

  /** `TrimSpace` applied to every piece. */
  function TrimEach(ps: seq<string>): seq<string>
  {
    seq(|ps|, i requires 0 <= i < |ps| => TrimSpace(ps[i]))
  }

  /** The non-empty strings of `ps`, in their order. */
  function NonEmpty(ps: seq<string>): seq<string>
  {
    if |ps| == 0 then []
    else if ps[0] == "" then NonEmpty(ps[1..])
    else [ps[0]] + NonEmpty(ps[1..])
  }

  /** The pieces of `s` between single spaces, after trimming `s` and then
      each piece: Go's `strings.Split(strings.TrimSpace(s), " ")` followed by
      a `strings.TrimSpace` of every piece. */
  function Pieces(s: string): seq<string>
  {
    TrimEach(Split(TrimSpace(s), ' '))
  }

  /** The token list of an attribute value: its pieces with the empty ones
      dropped, in order. Only the space character separates tokens; a tab
      between two words stays inside one token. */
  function Tokens(s: string): seq<string>
  {
    NonEmpty(Pieces(s))
  }

  // ---------------------------------------------------------------------
  // What the string functions guarantee.
  // ---------------------------------------------------------------------

  /** Trimming only removes characters. */
  lemma TrimSpaceKeeps(s: string)
    ensures forall c :: c in TrimSpace(s) ==> c in s
  {
    var l := TrimLeft(s);
    assert forall c :: c in TrimRight(l) ==> c in l;
    assert forall c :: c in l ==> c in s;
  }

  /** No piece of a split holds the separator. */
  lemma {:induction false} SplitPieces(s: string, sep: char)
    ensures forall i :: 0 <= i < |Split(s, sep)| ==> sep !in Split(s, sep)[i]
    decreases |s|
  {
    if |s| > 0 {
      SplitPieces(s[1..], sep);
    }
  }

  /** Joining the pieces of a split with the separator restores the string. */
  lemma {:induction false} JoinOfSplit(s: string, sep: char)
    ensures Join(Split(s, sep), sep) == s
    decreases |s|
  {
    if |s| > 0 {
      var rest := Split(s[1..], sep);
      JoinOfSplit(s[1..], sep);
      assert s == [s[0]] + s[1..];
      if s[0] != sep {
        var r := [[s[0]] + rest[0]] + rest[1..];
        assert r[1..] == rest[1..];
      }
    }
  }

  /** The non-empty strings of `ps`, and only those, survive. */
  lemma {:induction false} NonEmptyMembers(ps: seq<string>)
    ensures forall t :: t in NonEmpty(ps) <==> t in ps && t != ""
  {
    if |ps| > 0 {
      NonEmptyMembers(ps[1..]);
      assert ps == [ps[0]] + ps[1..];
    }
  }

  /** The filter distributes over concatenation: it keeps the order of the
      surviving strings and every repetition of them. */
  lemma {:induction false} NonEmptyConcat(a: seq<string>, b: seq<string>)
    ensures NonEmpty(a + b) == NonEmpty(a) + NonEmpty(b)
    decreases |a|
  {
    if |a| > 0 {
      assert (a + b)[1..] == a[1..] + b;
      NonEmptyConcat(a[1..], b);
    } else {
      assert a + b == b;
    }
  }

  /** A one-element list survives the filter iff its element is not "". */
  lemma NonEmptyOne(t: string)
    ensures NonEmpty([t]) == if t == "" then [] else [t]
  {
    assert [t][1..] == [];
  }

  /** Every piece is free of spaces and trimmed. */
  lemma PiecesClean(s: string)
    ensures forall i :: 0 <= i < |Pieces(s)| ==> ' ' !in Pieces(s)[i] && IsTrimmed(Pieces(s)[i])
  {
    var pieces := Split(TrimSpace(s), ' ');
    SplitPieces(TrimSpace(s), ' ');
    forall i | 0 <= i < |pieces|
      ensures ' ' !in TrimSpace(pieces[i])
    {
      TrimSpaceKeeps(pieces[i]);
    }
  }

  /** Every element of a token list is a token. */
  lemma TokensAreTokens(s: string)
    ensures forall i :: 0 <= i < |Tokens(s)| ==> IsToken(Tokens(s)[i])
  {
    PiecesClean(s);
    NonEmptyMembers(Pieces(s));
    forall i | 0 <= i < |Tokens(s)|
      ensures IsToken(Tokens(s)[i])
    {
      var t := Tokens(s)[i];
      assert t in Pieces(s);
    }
  }

  // ---------------------------------------------------------------------
  // Split and Join are inverses; tokens round-trip through a joined list.
  // ---------------------------------------------------------------------

  lemma {:induction false} SplitNoSep(a: string, sep: char)
    requires sep !in a
    ensures Split(a, sep) == [a]
    decreases |a|
  {
    if |a| > 0 {
      SplitNoSep(a[1..], sep);
      assert [a[0]] + a[1..] == a;
    }
  }

  lemma {:induction false} SplitAtSep(a: string, b: string, sep: char)
    requires sep !in a
    ensures Split(a + [sep] + b, sep) == [a] + Split(b, sep)
    decreases |a|
  {
    var s := a + [sep] + b;
    if |a| == 0 {
      assert s[1..] == b;
    } else {
      assert s[1..] == a[1..] + [sep] + b;
      SplitAtSep(a[1..], b, sep);
      assert [a[0]] + a[1..] == a;
    }
  }

  /** Splitting a joined list of separator-free pieces gives the pieces back. */
  lemma {:induction false} SplitOfJoin(parts: seq<string>, sep: char)
    requires |parts| >= 1
    requires forall i :: 0 <= i < |parts| ==> sep !in parts[i]
    ensures Split(Join(parts, sep), sep) == parts
  {
    if |parts| == 1 {
      SplitNoSep(parts[0], sep);
    } else {
      SplitOfJoin(parts[1..], sep);
      SplitAtSep(parts[0], Join(parts[1..], sep), sep);
      assert [parts[0]] + parts[1..] == parts;
    }
  }

  lemma {:induction false} JoinEnds(parts: seq<string>, sep: char)
    requires |parts| >= 1
    requires forall i :: 0 <= i < |parts| ==> |parts[i]| > 0
    ensures |Join(parts, sep)| > 0
    ensures Join(parts, sep)[0] == parts[0][0]
    ensures Join(parts, sep)[|Join(parts, sep)| - 1] == parts[|parts| - 1][|parts[|parts| - 1]| - 1]
  {
    if |parts| > 1 {
      JoinEnds(parts[1..], sep);
    }
  }

  lemma TrimEachFixed(ps: seq<string>)
    requires forall i :: 0 <= i < |ps| ==> IsTrimmed(ps[i])
    ensures TrimEach(ps) == ps
  {
    var r := TrimEach(ps);
    forall i | 0 <= i < |ps|
      ensures r[i] == ps[i]
    {
      assert IsTrimmed(ps[i]);
    }
  }

  lemma {:induction false} NonEmptyKeepsAll(ps: seq<string>)
    requires forall i :: 0 <= i < |ps| ==> ps[i] != ""
    ensures NonEmpty(ps) == ps
  {
    if |ps| > 0 {
      NonEmptyKeepsAll(ps[1..]);
      assert [ps[0]] + ps[1..] == ps;
    }
  }

  /** Tokens joined with single spaces split back into the same tokens: the
      token list loses nothing but white space. */
  lemma JoinTrimmed(ts: seq<string>)
    requires forall i :: 0 <= i < |ts| ==> IsToken(ts[i])
    ensures TrimSpace(Join(ts, ' ')) == Join(ts, ' ')
  {
    if |ts| > 0 {
      JoinEnds(ts, ' ');
    }
  }

  lemma TokensOfEmpty()
    ensures Tokens("") == []
  {
    assert TrimSpace("") == "";
    assert Split("", ' ') == [""];
    assert TrimEach([""]) == [""];
    assert Pieces("") == [""];
    assert [""][1..] == [];
    assert NonEmpty([""]) == [];
  }

  /** A non-empty list of tokens joined with single spaces splits back into
      the same pieces. */
  lemma PiecesOfJoin(ts: seq<string>)
    requires |ts| > 0
    requires forall i :: 0 <= i < |ts| ==> IsToken(ts[i])
    ensures Pieces(Join(ts, ' ')) == ts
  {
    JoinTrimmed(ts);
    SplitOfJoin(ts, ' ');
    TrimEachFixed(ts);
  }

  lemma TokensOfJoin(ts: seq<string>)
    requires forall i :: 0 <= i < |ts| ==> IsToken(ts[i])
    ensures Tokens(Join(ts, ' ')) == ts
  {
    if |ts| == 0 {
      TokensOfEmpty();
    } else {
      PiecesOfJoin(ts);
      NonEmptyKeepsAll(ts);
    }
  }

  /** A single token is its own token list, and its own piece list. */
  lemma SingleToken(t: string)
    requires IsToken(t)
    ensures Pieces(t) == [t]
    ensures Tokens(t) == [t]
  {
    PiecesOfJoin([t]);
    TokensOfJoin([t]);
  }

  lemma SpacedTrim()
    ensures TrimSpace(" A  B ") == "A  B"
  {
    SpacedTrimLeft();
    SpacedTrimRight();
  }

  lemma SpacedTrimLeft()
    ensures TrimLeft(" A  B ") == "A  B "
  {
    assert " A  B "[1..] == "A  B ";
    assert !IsSpace('A');
    assert TrimLeft("A  B ") == "A  B ";
  }

  lemma SpacedTrimRight()
    ensures TrimRight("A  B ") == "A  B"
  {
    assert "A  B "[..4] == "A  B";
    assert !IsSpace('B');
    assert TrimRight("A  B") == "A  B";
  }

  lemma SpacedSplit()
    ensures Split("A  B", ' ') == ["A", "", "B"]
  {
    SplitNoSep("B", ' ');
    SplitAtSep("", "B", ' ');
    SplitAtSep("A", " B", ' ');
    assert "A  B" == "A" + [' '] + " B";
    assert " B" == "" + [' '] + "B";
  }

  /** The outer white space of `" A  B "` is cut before splitting, and the
      double space leaves one empty piece: `["A", "", "B"]`. */
  lemma SpacedPieces()
    ensures Pieces(" A  B ") == ["A", "", "B"]
  {
    SpacedTrim();
    SpacedSplit();
    PiecesTrimmed();
    PiecesVia(" A  B ", "A  B", ["A", "", "B"]);
  }

  /** The pieces of `s`, given its trimmed form and that form's split into
      trimmed parts. */
  lemma PiecesVia(s: string, t: string, ps: seq<string>)
    requires TrimSpace(s) == t && Split(t, ' ') == ps
    requires forall i :: 0 <= i < |ps| ==> IsTrimmed(ps[i])
    ensures Pieces(s) == ps
  {
    TrimEachFixed(ps);
  }

  lemma PiecesTrimmed()
    ensures forall i :: 0 <= i < |["A", "", "B"]| ==> IsTrimmed(["A", "", "B"][i])
  {
    assert IsTrimmed("A") && IsTrimmed("") && IsTrimmed("B");
  }

  lemma SpacedNonEmpty()
    ensures NonEmpty(["A", "", "B"]) == ["A", "B"]
  {
    assert ["A", "", "B"][1..] == ["", "B"];
    assert ["", "B"][1..] == ["B"];
    assert ["B"][1..] == [];
    assert NonEmpty(["B"]) == ["B"];
    assert NonEmpty(["", "B"]) == ["B"];
  }

  /** Runs of spaces and the outer white space never produce tokens:
      `" A  B "` is `["A", "B"]`. */
  lemma SpacedTokens()
    ensures Tokens(" A  B ") == ["A", "B"]
  {
    SpacedPieces();
    SpacedNonEmpty();
  }
}
