/**
 * The two pieces of java.lang.String that both tree constructors rely on:
 * trim(), and split("\\s+") applied to a trimmed string.
 */
module Text {

  /** The regular-expression class \s: space, \t, \n, \x0B, \f and \r. */
  predicate IsSpace(c: char) {
    c == ' ' || '\t' <= c <= '\r'
  }

  /** A token: a non-empty run of characters none of which is in \s. */
  predicate IsToken(w: string) {
    w != [] && forall k :: 0 <= k < |w| ==> !IsSpace(w[k])
  }

  /** Drops the leading characters at or below U+0020. */
  function TrimStart(s: string): (r: string)
    ensures |r| <= |s| && r == s[|s| - |r|..]
    ensures forall k :: 0 <= k < |s| - |r| ==> s[k] <= ' '
    ensures r == [] || r[0] > ' '
  {
    if s != [] && s[0] <= ' ' then TrimStart(s[1..]) else s
  }

  /** Drops the trailing characters at or below U+0020. */
  function TrimEnd(s: string): (r: string)
    ensures |r| <= |s| && r == s[..|r|]
    ensures forall k :: |r| <= k < |s| ==> s[k] <= ' '
    ensures r == [] || r[|r| - 1] > ' '
  {
    if s != [] && s[|s| - 1] <= ' ' then TrimEnd(s[..|s| - 1]) else s
  }

  /** Every character of s is at or below U+0020. */
  predicate Blank(s: string) {
    forall k :: 0 <= k < |s| ==> s[k] <= ' '
  }

  /** String.trim(): strips every character at or below U+0020 from both ends. */
  function Trim(s: string): (r: string)
    ensures r == [] <==> Blank(s)
    ensures r != [] ==> r[0] > ' ' && r[|r| - 1] > ' '
    ensures |r| <= |s|
    ensures exists i, j :: Trimmed(s, i, j) && r == s[i..j]
  {
    var t := TrimStart(s);
    var r := TrimEnd(t);
    TrimEndVisible(t, r);
    TrimBlank(s);
    TrimBothEnds(s);
    r
  }

  /** Trimming the end of a string that starts visibly keeps both of its ends visible. */
  lemma TrimEndVisible(t: string, r: string)
    requires t == [] || t[0] > ' '
    requires r == TrimEnd(t)
    ensures r != [] ==> r[0] > ' ' && r[|r| - 1] > ' '
  {
    if r != [] {
      assert r[0] == t[0];
    }
  }

  /** Exactly the strings with no character above U+0020 trim to nothing. */
  lemma TrimBlank(s: string)
    ensures TrimEnd(TrimStart(s)) == [] <==> Blank(s)
  {
    var t := TrimStart(s);
    if t != [] {
      assert t[0] > ' ' && s[|s| - |t|] == t[0];
    }
    if TrimEnd(t) == [] && t != [] {
      assert t[0] <= ' ';
    }
  }

  /** Everything of s before i and from j on is at or below U+0020. */
  predicate Trimmed(s: string, i: int, j: int) {
    && 0 <= i <= j <= |s|
    && (forall k :: 0 <= k < i ==> s[k] <= ' ')
    && (forall k :: j <= k < |s| ==> s[k] <= ' ')
  }

  lemma TrimBothEnds(s: string)
    ensures exists i, j :: Trimmed(s, i, j) && TrimEnd(TrimStart(s)) == s[i..j]
  {
    var t := TrimStart(s);
    var r := TrimEnd(t);
    var i := |s| - |t|;
    var j := i + |r|;
    assert r == s[i..j] by {
      assert t == s[i..];
      assert r == t[..|r|];
    }
    forall k | j <= k < |s|
      ensures s[k] <= ' '
    {
      assert s[k] == t[k - i];
    }
    assert Trimmed(s, i, j);
  }

  /** A string that neither starts nor ends with a character at or below U+0020 is its own trim. */
  lemma TrimUnchanged(s: string)
    requires s == [] || (s[0] > ' ' && s[|s| - 1] > ' ')
    ensures Trim(s) == s
  {
  }

  /** The length of the leading run of characters outside \s. */
  function RunLength(s: string): (n: nat)
    ensures n <= |s|
    ensures forall k :: 0 <= k < n ==> !IsSpace(s[k])
    ensures n < |s| ==> IsSpace(s[n])
  {
    if s == [] || IsSpace(s[0]) then 0 else 1 + RunLength(s[1..])
  }

  /**
   * split("\\s+") of a string that does not start with a \s character: the maximal
   * runs of characters outside \s, in order of appearance.
   */
  function Tokenize(s: string): (r: seq<string>)
    ensures forall i :: 0 <= i < |r| ==> IsToken(r[i])
    ensures Concat(r) == Visible(s)
    decreases |s|
  {
    if s == [] then []
    else if IsSpace(s[0]) then Tokenize(s[1..])
    else
      var n := RunLength(s);
      VisibleAppend(s[..n], s[n..]);
      VisibleToken(s[..n]);
      assert s[..n] + s[n..] == s;
      [s[..n]] + Tokenize(s[n..])
  }

  /** The characters of a string that are not in \s, in order. */
  function Visible(s: string): string {
    if s == [] then [] else (if IsSpace(s[0]) then [] else [s[0]]) + Visible(s[1..])
  }

  function Concat(ws: seq<string>): string {
    if ws == [] then [] else ws[0] + Concat(ws[1..])
  }

  lemma {:induction false} VisibleAppend(a: string, b: string)
    ensures Visible(a + b) == Visible(a) + Visible(b)
  {
    if a != [] {
      var h := if IsSpace(a[0]) then [] else [a[0]];
      assert (a + b)[0] == a[0] && (a + b)[1..] == a[1..] + b;
      assert Visible(a + b) == h + Visible(a[1..] + b);
      VisibleAppend(a[1..], b);
    } else {
      assert a + b == b;
    }
  }

  lemma {:induction false} VisibleToken(w: string)
    requires forall k :: 0 <= k < |w| ==> !IsSpace(w[k])
    ensures Visible(w) == w
  {
    if w != [] {
      VisibleToken(w[1..]);
    }
  }

  /** A run of \s characters in front of the text adds no token. */
  lemma {:induction false} SkipSpaces(sep: string, tail: string)
    requires forall k :: 0 <= k < |sep| ==> IsSpace(sep[k])
    ensures Tokenize(sep + tail) == Tokenize(tail)
  {
    if sep != [] {
      assert (sep + tail)[0] == sep[0] && (sep + tail)[1..] == sep[1..] + tail;
      assert Tokenize(sep + tail) == Tokenize(sep[1..] + tail);
      SkipSpaces(sep[1..], tail);
    } else {
      assert sep + tail == tail;
    }
  }

  /** Any non-empty run of \s characters (tabs, several spaces) ends a token as one space does. */
  lemma TokenizeRun(w: string, sep: string, tail: string)
    requires IsToken(w)
    requires sep != [] && forall k :: 0 <= k < |sep| ==> IsSpace(sep[k])
    ensures Tokenize(w + sep + tail) == [w] + Tokenize(tail)
  {
    TokenizeToken(w, sep + tail);
    SkipSpaces(sep, tail);
    assert w + sep + tail == w + (sep + tail);
  }

  /** The strings with `sep` between each two neighbours. */
  function Join(ws: seq<string>, sep: string): string {
    if ws == [] then ""
    else if |ws| == 1 then ws[0]
    else ws[0] + sep + Join(ws[1..], sep)
  }

  /** Joining two non-empty lists puts one separator between their joins. */
  lemma {:induction false} JoinAppend(a: seq<string>, b: seq<string>, sep: string)
    requires a != [] && b != []
    ensures Join(a + b, sep) == Join(a, sep) + sep + Join(b, sep)
  {
    if |a| == 1 {
      assert (a + b)[1..] == b;
    } else {
      assert (a + b)[1..] == a[1..] + b;
      JoinAppend(a[1..], b, sep);
    }
  }

  /** A word with no character at or below U+0020; in particular a token. */
  predicate IsWord(w: string) {
    w != [] && forall k :: 0 <= k < |w| ==> w[k] > ' '
  }

  lemma WordIsToken(w: string)
    requires IsWord(w)
    ensures IsToken(w)
  {
  }

  /** A string yields no token exactly when it consists of \s characters only. */
  lemma {:induction false} TokenizeEmpty(s: string)
    ensures Tokenize(s) == [] <==> forall k :: 0 <= k < |s| ==> IsSpace(s[k])
    decreases |s|
  {
    if s != [] && IsSpace(s[0]) {
      TokenizeEmpty(s[1..]);
      assert forall k :: 1 <= k < |s| ==> s[k] == s[1..][k - 1];
    }
  }

  /** A trimmed non-empty string holds at least one token. */
  lemma TokenizeTrimmed(s: string)
    requires Trim(s) != []
    ensures Tokenize(Trim(s)) != []
  {
    TokenizeEmpty(Trim(s));
  }

  /** A token followed by nothing or by a \s character is split off whole. */
  lemma TokenizeToken(w: string, tail: string)
    requires IsToken(w)
    requires tail == [] || IsSpace(tail[0])
    ensures Tokenize(w + tail) == [w] + Tokenize(tail)
  {
    var s := w + tail;
    var n := RunLength(s);
    assert forall k :: 0 <= k < |w| ==> s[k] == w[k];
    assert tail != [] ==> s[|w|] == tail[0];
    assert n == |w|;
    assert s[..n] == w;
    assert s[n..] == tail;
  }

  /** Splitting words joined by single spaces gives the words back. */
  lemma {:induction false} TokenizeJoin(ws: seq<string>)
    requires forall i :: 0 <= i < |ws| ==> IsToken(ws[i])
    ensures Tokenize(Join(ws, " ")) == ws
  {
    if |ws| == 1 {
      TokenizeToken(ws[0], "");
      assert ws[0] + "" == ws[0];
    } else if |ws| > 1 {
      var rest := " " + Join(ws[1..], " ");
      TokenizeToken(ws[0], rest);
      assert ws[0] + " " + Join(ws[1..], " ") == ws[0] + rest;
      assert rest[1..] == Join(ws[1..], " ");
      TokenizeJoin(ws[1..]);
      assert [ws[0]] + ws[1..] == ws;
    }
  }

  /** The words with seps[i] between ws[i] and ws[i + 1]. */
  function JoinWith(ws: seq<string>, seps: seq<string>): string
    requires |ws| == |seps| + 1
  {
    if |ws| == 1 then ws[0] else ws[0] + seps[0] + JoinWith(ws[1..], seps[1..])
  }

  /** Three words with their two separators, and padding around them. */
  lemma JoinThree(lead: string, a: string, s1: string, b: string, s2: string, c: string, trail: string)
    ensures Join([a, b, c], s1) == a + s1 + b + s1 + c
    ensures lead + JoinWith([a, b, c], [s1, s2]) + trail == lead + a + s1 + b + s2 + c + trail
  {
    var ws := [a, b, c];
    assert ws[1..] == [b, c] && ws[1..][1..] == [c];
    assert Join([b, c], s1) == b + s1 + c;
    assert Join(ws, s1) == a + s1 + (b + s1 + c);
    assert JoinWith([b, c], [s2]) == b + s2 + c by {
      assert [s2][1..] == [];
    }
    assert JoinWith(ws, [s1, s2]) == a + s1 + (b + s2 + c) by {
      assert [s1, s2][1..] == [s2];
    }
  }

  /** A non-empty run of \s characters: one space, a tab, or several of them mixed. */
  predicate IsGap(sep: string) {
    sep != [] && forall k :: 0 <= k < |sep| ==> IsSpace(sep[k])
  }

  /** Tokens separated by any runs of \s characters split back into the tokens, as with single spaces. */
  lemma {:induction false} TokenizeJoinWith(ws: seq<string>, seps: seq<string>)
    requires |ws| == |seps| + 1
    requires forall i :: 0 <= i < |ws| ==> IsToken(ws[i])
    requires forall i :: 0 <= i < |seps| ==> IsGap(seps[i])
    ensures Tokenize(JoinWith(ws, seps)) == ws
  {
    if |ws| == 1 {
      TokenizeToken(ws[0], "");
      assert ws[0] + "" == ws[0];
    } else {
      assert IsToken(ws[0]) && IsGap(seps[0]);
      TokenizeRun(ws[0], seps[0], JoinWith(ws[1..], seps[1..]));
      TokenizeJoinWith(ws[1..], seps[1..]);
      assert [ws[0]] + ws[1..] == ws;
    }
  }

  /** Joined words start with the first word's first character and end with the last word's last. */
  lemma {:induction false} JoinEnds(ws: seq<string>, sep: string)
    requires ws != []
    requires forall i :: 0 <= i < |ws| ==> ws[i] != []
    ensures ws[0] != [] && ws[|ws| - 1] != []
    ensures Join(ws, sep) != []
    ensures Join(ws, sep)[0] == ws[0][0]
    ensures Join(ws, sep)[|Join(ws, sep)| - 1] == ws[|ws| - 1][|ws[|ws| - 1]| - 1]
  {
    if |ws| > 1 {
      JoinEnds(ws[1..], sep);
    }
  }

  lemma {:induction false} JoinWithEnds(ws: seq<string>, seps: seq<string>)
    requires |ws| == |seps| + 1
    requires forall i :: 0 <= i < |ws| ==> IsWord(ws[i])
    ensures JoinWith(ws, seps) != []
    ensures JoinWith(ws, seps)[0] > ' ' && JoinWith(ws, seps)[|JoinWith(ws, seps)| - 1] > ' '
  {
    assert IsWord(ws[0]);
    if |ws| > 1 {
      JoinWithEnds(ws[1..], seps[1..]);
      var rest := JoinWith(ws[1..], seps[1..]);
      assert JoinWith(ws, seps) == ws[0] + seps[0] + rest;
    }
  }

  /** Blanks in front of a string that starts above U+0020 are all trimStart drops. */
  lemma {:induction false} TrimStartPadded(lead: string, s: string)
    requires forall k :: 0 <= k < |lead| ==> lead[k] <= ' '
    requires s == [] || s[0] > ' '
    ensures TrimStart(lead + s) == s
  {
    if lead != [] {
      assert (lead + s)[0] == lead[0] && (lead + s)[1..] == lead[1..] + s;
      TrimStartPadded(lead[1..], s);
    } else {
      assert lead + s == s;
    }
  }

  /** Blanks after a string that ends above U+0020 are all trimEnd drops. */
  lemma {:induction false} TrimEndPadded(s: string, trail: string)
    requires forall k :: 0 <= k < |trail| ==> trail[k] <= ' '
    requires s == [] || s[|s| - 1] > ' '
    ensures TrimEnd(s + trail) == s
    decreases |trail|
  {
    if trail != [] {
      var t := trail[..|trail| - 1];
      assert (s + trail)[|s + trail| - 1] == trail[|trail| - 1];
      assert (s + trail)[..|s + trail| - 1] == s + t;
      TrimEndPadded(s, t);
    } else {
      assert s + trail == s;
    }
  }

  /** trim() removes exactly the blank padding around a string that starts and ends above U+0020. */
  lemma TrimPadded(lead: string, s: string, trail: string)
    requires Blank(lead) && Blank(trail)
    requires s != [] && s[0] > ' ' && s[|s| - 1] > ' '
    ensures Trim(lead + s + trail) == s
  {
    assert (s + trail)[0] == s[0];
    TrimStartPadded(lead, s + trail);
    assert lead + s + trail == lead + (s + trail);
    TrimEndPadded(s, trail);
  }

  /** Words joined by single spaces are their own trim and split back into the words. */
  lemma JoinedWords(ws: seq<string>)
    requires ws != []
    requires forall i :: 0 <= i < |ws| ==> IsWord(ws[i])
    ensures Join(ws, " ") != [] && Trim(Join(ws, " ")) == Join(ws, " ")
    ensures Tokenize(Join(ws, " ")) == ws
  {
    var s := Join(ws, " ");
    JoinedWordsEnds(ws);
    assert s != [] && s[0] > ' ' && s[|s| - 1] > ' ';
    TrimUnchanged(s);
    assert Trim(s) == s;
    forall i | 0 <= i < |ws|
      ensures IsToken(ws[i])
    {
      WordIsToken(ws[i]);
    }
    TokenizeJoin(ws);
  }

  lemma JoinedWordsEnds(ws: seq<string>)
    requires ws != []
    requires forall i :: 0 <= i < |ws| ==> IsWord(ws[i])
    ensures Join(ws, " ") != [] && Join(ws, " ")[0] > ' ' && Join(ws, " ")[|Join(ws, " ")| - 1] > ' '
  {
    JoinEnds(ws, " ");
    assert IsWord(ws[0]) && IsWord(ws[|ws| - 1]);
  }
}
