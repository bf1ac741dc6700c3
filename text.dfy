/** Python `str` operations used by the analytics script, restricted to ASCII:
    `isspace`, `strip`, `split(sep)`, `split()`, `splitlines`, `"\n".join`,
    `title`, and `str(int)`. */
module Text {

  /** Python's `str.isspace` on the ASCII range: tab, line feed, vertical tab,
      form feed, carriage return, the four separators 0x1C..0x1F and space. */
  predicate IsSpace(c: char) {
    c == ' ' || 9 <= c as int <= 13 || 28 <= c as int <= 31
  }

  /** The ASCII characters at which Python's `str.splitlines` breaks a line. */
  predicate IsLineBreak(c: char) {
    10 <= c as int <= 13 || 28 <= c as int <= 30
  }

  lemma LineBreakIsSpace(c: char)
    ensures IsLineBreak(c) ==> IsSpace(c)
  {
  }

  predicate NoSpace(s: string) {
    forall i :: 0 <= i < |s| ==> !IsSpace(s[i])
  }

  predicate AllSpace(s: string) {
    forall i :: 0 <= i < |s| ==> IsSpace(s[i])
  }

  /** Neither end of `s` is whitespace: what `s.strip()` leaves. */
  predicate Trimmed(s: string) {
    s == [] || (!IsSpace(s[0]) && !IsSpace(s[|s| - 1]))
  }

  // ---------------------------------------------------------------- strip

  function StripLeft(s: string): (r: string)
    ensures |r| <= |s| && r == s[|s| - |r|..]
    ensures forall i :: 0 <= i < |s| - |r| ==> IsSpace(s[i])
    ensures r == [] || !IsSpace(r[0])
  {
    if s != [] && IsSpace(s[0]) then StripLeft(s[1..]) else s
  }

  function StripRight(s: string): (r: string)
    ensures |r| <= |s| && r == s[..|r|]
    ensures forall i :: |r| <= i < |s| ==> IsSpace(s[i])
    ensures r == [] || !IsSpace(r[|r| - 1])
  {
    if s != [] && IsSpace(s[|s| - 1]) then StripRight(s[..|s| - 1]) else s
  }

  /** `s` is `r` at offset `i` with only whitespace before and after it. */
  predicate SpaceAround(s: string, i: nat, r: string) {
    i + |r| <= |s| && r == s[i..i + |r|] && AllSpace(s[..i]) && AllSpace(s[i + |r|..])
  }

  /** Whitespace removed from the front of `s`, then from the back of what is
      left, leaves a slice of `s` with only whitespace around it. */
  lemma StripSlice(s: string, l: string, r: string)
    requires |l| <= |s| && l == s[|s| - |l|..] && AllSpace(s[..|s| - |l|])
    requires |r| <= |l| && r == l[..|r|] && AllSpace(l[|r|..])
    requires r == [] || !IsSpace(r[0])
    ensures SpaceAround(s, |s| - |l|, r)
    ensures r == [] <==> AllSpace(s)
  {
    var cut := |s| - |l|;
    assert s[cut + |r|..] == l[|r|..];
    assert r == s[cut..cut + |r|];
    if r == [] {
      assert l[|r|..] == l && s[..|s| - |l|] + l == s;
      assert forall i :: 0 <= i < |s| ==> IsSpace(s[i]) by {
        forall i | 0 <= i < |s| ensures IsSpace(s[i]) {
          if i < cut {
            assert s[..cut][i] == s[i];
          } else {
            assert l[i - cut] == s[i];
          }
        }
      }
    } else {
      assert r[0] == s[cut];
    }
  }

  /** Python's `s.strip()`: drop leading and trailing whitespace. The result is
      trimmed, made only of characters of `s`, and empty exactly when `s` is all
      whitespace. */
  function Strip(s: string): (r: string)
    ensures Trimmed(r)
    ensures |r| <= |s|
    ensures exists i :: SpaceAround(s, i, r)
    ensures r == [] <==> AllSpace(s)
  {
    var l := StripLeft(s);
    var r := StripRight(l);
    StripSlice(s, l, r);
    r
  }

  /** Stripping a text that starts with a non-empty trimmed part keeps that
      part whole at its front: only a prefix of what follows is kept beside it. */
  lemma StripKeepsFront(front: string, rest: string)
    requires front != [] && Trimmed(front)
    ensures var r := Strip(front + rest);
      |front| <= |r| <= |front + rest| && r == front + rest[..|r| - |front|]
  {
    var s := front + rest;
    assert s[0] == front[0] && s[|front| - 1] == front[|front| - 1];
    assert StripLeft(s) == s;
    var r := StripRight(s);
    assert Strip(s) == r;
    assert |front| <= |r|;
    assert s[..|r|] == front + rest[..|r| - |front|];
  }

  /** A string that is already trimmed is left alone by `strip`. */
  lemma StripTrimmed(s: string)
    requires Trimmed(s)
    ensures Strip(s) == s
  {
    assert StripLeft(s) == s;
    assert StripRight(s) == s;
  }

  lemma {:induction false} StripRightOfSpace(t: string, w: string)
    requires t == [] || !IsSpace(t[|t| - 1])
    requires AllSpace(w)
    ensures StripRight(t + w) == t
    decreases |w|
  {
    if w == [] {
      assert t + w == t;
    } else {
      var s := t + w;
      var w' := w[..|w| - 1];
      assert s[|s| - 1] == w[|w| - 1];
      assert s[..|s| - 1] == t + w';
      assert AllSpace(w') by {
        forall i | 0 <= i < |w'| ensures IsSpace(w'[i]) {
          assert w'[i] == w[i];
        }
      }
      StripRightOfSpace(t, w');
    }
  }

  /** Stripping a trimmed, non-empty text followed by whitespace gives the text. */
  lemma StripTrailingSpace(t: string, w: string)
    requires t != [] && Trimmed(t) && AllSpace(w)
    ensures Strip(t + w) == t
  {
    var s := t + w;
    assert s[0] == t[0];
    assert StripLeft(s) == s;
    StripRightOfSpace(t, w);
  }

  // ----------------------------------------------------------- split(sep)

  /** `sep` occurs in `s` starting at index `j`. */
  predicate MatchAt(s: string, sep: string, j: nat) {
    j + |sep| <= |s| && s[j..j + |sep|] == sep
  }

  predicate NoMatch(s: string, sep: string) {
    forall j :: 0 <= j <= |s| ==> !MatchAt(s, sep, j)
  }

  /** Python's `s.split(sep)`: cut `s` at every non-overlapping occurrence of
      `sep`, scanning from the left. There is always at least one piece, no
      piece contains `sep`, and the first piece is a prefix of `s`. */
  function Split(s: string, sep: string): (r: seq<string>)
    requires sep != []
    ensures |r| >= 1
    ensures |r[0]| <= |s| && r[0] == s[..|r[0]|]
    ensures forall i :: 0 <= i < |r| ==> NoMatch(r[i], sep)
    decreases |s|
  {
    if |s| < |sep| then
      assert NoMatch(s, sep);
      [s]
    else if s[..|sep|] == sep then
      var rest := Split(s[|sep|..], sep);
      assert NoMatch("", sep);
      [""] + rest
    else
      var rest := Split(s[1..], sep);
      var head := [s[0]] + rest[0];
      assert head == s[..|head|];
      assert NoMatch(head, sep) by {
        forall j | 0 <= j <= |head| ensures !MatchAt(head, sep, j) {
          if j == 0 {
            if |sep| <= |head| {
              assert head[..|sep|] == s[..|sep|];
            }
          } else if MatchAt(head, sep, j) {
            assert head[j..j + |sep|] == rest[0][j - 1..j - 1 + |sep|];
            assert MatchAt(rest[0], sep, j - 1);
          }
        }
      }
      [head] + rest[1..]
  }

  /** `sep.join(pieces)`. */
  function Join(pieces: seq<string>, sep: string): string {
    if |pieces| == 0 then ""
    else if |pieces| == 1 then pieces[0]
    else pieces[0] + sep + Join(pieces[1..], sep)
  }

  lemma JoinConsChar(c: char, a: string, rest: seq<string>, sep: string)
    ensures Join([[c] + a] + rest, sep) == [c] + Join([a] + rest, sep)
  {
    var ps := [[c] + a] + rest;
    var qs := [a] + rest;
    assert ps[1..] == rest && qs[1..] == rest;
  }

  /** Joining the pieces of a split with the same separator gives back the text. */
  lemma {:induction false} JoinSplit(s: string, sep: string)
    requires sep != []
    ensures Join(Split(s, sep), sep) == s
    decreases |s|
  {
    if |s| < |sep| {
    } else if s[..|sep|] == sep {
      var rest := Split(s[|sep|..], sep);
      JoinSplit(s[|sep|..], sep);
      assert ([""] + rest)[1..] == rest;
      assert s == sep + s[|sep|..];
    } else {
      var rest := Split(s[1..], sep);
      JoinSplit(s[1..], sep);
      JoinConsChar(s[0], rest[0], rest[1..], sep);
      assert [rest[0]] + rest[1..] == rest;
      assert s == [s[0]] + s[1..];
    }
  }

  /** Dropping the first character of `s` shifts its matches down by one. */
  lemma MatchShift(s: string, sep: string, j: nat)
    requires |s| > 0
    ensures MatchAt(s[1..], sep, j) <==> MatchAt(s, sep, j + 1)
  {
    if j + 1 + |sep| <= |s| {
      assert s[1..][j..j + |sep|] == s[j + 1..j + 1 + |sep|];
    }
  }

  /** When `sep` does not start anywhere inside the prefix `p` of `p + t`, the
      first piece of the split is `p` followed by the first piece of `t`, and
      the other pieces are those of `t`. */
  lemma {:induction false} SplitPrefix(p: string, t: string, sep: string)
    requires sep != []
    requires forall j :: 0 <= j < |p| ==> !MatchAt(p + t, sep, j)
    ensures Split(p + t, sep) == [p + Split(t, sep)[0]] + Split(t, sep)[1..]
    decreases |p|
  {
    var ts := Split(t, sep);
    if p == [] {
      assert p + t == t;
      assert p + ts[0] == ts[0];
      assert [ts[0]] + ts[1..] == ts;
    } else {
      var s := p + t;
      assert !MatchAt(s, sep, 0);
      if |s| >= |sep| {
        assert s[..|sep|] != sep;
        var tail := s[1..];
        assert tail == p[1..] + t;
        forall j | 0 <= j < |p[1..]| ensures !MatchAt(tail, sep, j) {
          MatchShift(s, sep, j);
        }
        SplitPrefix(p[1..], t, sep);
        var r := Split(tail, sep);
        assert r == [p[1..] + ts[0]] + ts[1..];
        assert Split(s, sep) == [[s[0]] + r[0]] + r[1..];
        assert [s[0]] + r[0] == p + ts[0];
        assert r[1..] == ts[1..];
      }
    }
  }

  /** A text that does not contain `sep` splits into itself alone. */
  lemma SplitNoMatch(s: string, sep: string)
    requires sep != [] && NoMatch(s, sep)
    ensures Split(s, sep) == [s]
  {
    assert s + "" == s;
    forall j | 0 <= j < |s| ensures !MatchAt(s + "", sep, j) {
      assert !MatchAt(s, sep, j);
    }
    SplitPrefix(s, "", sep);
  }

  /** A text made of `sep` followed by `t` splits into an empty piece and the pieces of `t`. */
  lemma SplitAfterSeparator(t: string, sep: string)
    requires sep != []
    ensures Split(sep + t, sep) == [""] + Split(t, sep)
  {
    var s := sep + t;
    assert s[..|sep|] == sep;
    assert s[|sep|..] == t;
  }

  // ------------------------------------------------------------ split()

  /** The longest prefix of `s` holding no whitespace. */
  function WordPrefix(s: string): (w: string)
    ensures |w| <= |s| && w == s[..|w|] && NoSpace(w)
    ensures |w| < |s| ==> IsSpace(s[|w|])
  {
    if s == [] || IsSpace(s[0]) then "" else [s[0]] + WordPrefix(s[1..])
  }

  /** Python's `s.split()`: the maximal runs of non-whitespace, in order. */
  function Words(s: string): (r: seq<string>)
    ensures forall i :: 0 <= i < |r| ==> r[i] != [] && NoSpace(r[i])
    ensures r == [] <==> AllSpace(s)
    ensures s != [] && !IsSpace(s[0]) ==> r[0] == WordPrefix(s)
    decreases |s|
  {
    if s == [] then
      []
    else if IsSpace(s[0]) then
      var r := Words(s[1..]);
      assert AllSpace(s[1..]) ==> AllSpace(s) by {
        assert forall i :: 1 <= i < |s| ==> s[i] == s[1..][i - 1];
      }
      r
    else
      var w := WordPrefix(s);
      var rest := Words(s[|w|..]);
      var r := [w] + rest;
      assert forall i :: 1 <= i < |r| ==> r[i] == rest[i - 1];
      r
  }

  /** A run without whitespace at the front is part of the first word. */
  lemma {:induction false} WordPrefixOfFront(front: string, t: string)
    requires NoSpace(front)
    ensures WordPrefix(front + t) == front + WordPrefix(t)
  {
    if front == [] {
      assert front + t == t;
    } else {
      var s := front + t;
      assert s[0] == front[0];
      assert s[1..] == front[1..] + t;
      assert NoSpace(front[1..]) by {
        forall i | 0 <= i < |front[1..]| ensures !IsSpace(front[1..][i]) {
          assert front[1..][i] == front[i + 1];
        }
      }
      WordPrefixOfFront(front[1..], t);
      assert front == [front[0]] + front[1..];
    }
  }

  /** A non-empty word splits into itself. */
  lemma WordsOfWord(w: string)
    requires w != [] && NoSpace(w)
    ensures Words(w) == [w]
  {
    assert WordPrefix(w) == w;
    assert w[|w|..] == [];
  }

  // -------------------------------------------------------- splitlines()

  /** Index of the first line break of `s`, or `|s|` when there is none. */
  function LineEnd(s: string): (n: nat)
    ensures n <= |s|
    ensures forall i :: 0 <= i < n ==> !IsLineBreak(s[i])
    ensures n < |s| ==> IsLineBreak(s[n])
  {
    if s == [] || IsLineBreak(s[0]) then 0 else 1 + LineEnd(s[1..])
  }

  predicate NoLineBreak(s: string) {
    forall i :: 0 <= i < |s| ==> !IsLineBreak(s[i])
  }

  /** Where the line after the first break of `s` starts: `\r\n` is one break. */
  function NextLine(s: string): (next: nat)
    requires LineEnd(s) < |s|
    ensures LineEnd(s) < next <= |s|
  {
    var n := LineEnd(s);
    if s[n] == '\r' && n + 1 < |s| && s[n + 1] == '\n' then n + 2 else n + 1
  }

  /** Python's `s.splitlines()`: the lines of `s` without their breaks; `\r\n`
      is one break, and a break at the very end does not start another line. */
  function SplitLines(s: string): (r: seq<string>)
    ensures s == [] <==> r == []
    ensures s != [] ==> r[0] == s[..LineEnd(s)]
    decreases |s|
  {
    if s == [] then []
    else if LineEnd(s) == |s| then [s]
    else [s[..LineEnd(s)]] + SplitLines(s[NextLine(s)..])
  }

  /** No line holds a line break. */
  lemma {:induction false} SplitLinesHaveNoBreaks(s: string)
    ensures forall i :: 0 <= i < |SplitLines(s)| ==> NoLineBreak(SplitLines(s)[i])
    decreases |s|
  {
    if s != [] && LineEnd(s) < |s| {
      var lines := SplitLines(s);
      var rest := SplitLines(s[NextLine(s)..]);
      SplitLinesHaveNoBreaks(s[NextLine(s)..]);
      assert lines == [s[..LineEnd(s)]] + rest;
      forall i | 0 <= i < |lines| ensures NoLineBreak(lines[i]) {
        if i > 0 {
          assert lines[i] == rest[i - 1];
        }
      }
    }
  }

  /** `"\n".join(lines)`: the first line begins the result, and a single line
      is returned as it is. */
  function JoinLines(lines: seq<string>): (r: string)
    ensures lines != [] ==> lines[0] <= r
    ensures |lines| == 1 ==> r == lines[0]
  {
    Join(lines, "\n")
  }

  /** The only line break in `s` is the line feed. */
  predicate UnixLines(s: string) {
    forall i :: 0 <= i < |s| ==> IsLineBreak(s[i]) ==> s[i] == '\n'
  }

  lemma JoinCons(a: string, rest: seq<string>, sep: string)
    requires rest != []
    ensures Join([a] + rest, sep) == a + sep + Join(rest, sep)
  {
    assert ([a] + rest)[1..] == rest;
  }

  lemma UnixLinesDrop(s: string, k: nat)
    requires UnixLines(s) && k <= |s|
    ensures UnixLines(s[k..])
  {
    var rest := s[k..];
    forall i | 0 <= i < |rest| ensures IsLineBreak(rest[i]) ==> rest[i] == '\n' {
      assert rest[i] == s[k + i];
    }
  }

  lemma SplitAround(s: string, n: nat)
    requires n < |s|
    ensures s == s[..n] + [s[n]] + s[n + 1..]
  {
    assert s[..n] + [s[n]] == s[..n + 1];
  }

  /** In such a text the first break is a line feed with more text after it. */
  lemma FirstLineFeed(s: string)
    requires UnixLines(s) && s != [] && !IsLineBreak(s[|s| - 1]) && LineEnd(s) < |s|
    ensures s[LineEnd(s)] == '\n' && NextLine(s) == LineEnd(s) + 1 < |s|
  {
    var n := LineEnd(s);
    assert IsLineBreak(s[n]);
  }

  /** For a text whose only breaks are line feeds and which does not end in a
      break, joining its lines with `\n` gives it back. */
  lemma {:induction false} JoinSplitLines(s: string)
    requires UnixLines(s)
    requires s == [] || !IsLineBreak(s[|s| - 1])
    ensures JoinLines(SplitLines(s)) == s
    decreases |s|
  {
    if s != [] {
      var n := LineEnd(s);
      if n < |s| {
        FirstLineFeed(s);
        var rest := s[NextLine(s)..];
        assert rest[|rest| - 1] == s[|s| - 1];
        UnixLinesDrop(s, n + 1);
        JoinSplitLines(rest);
        assert SplitLines(s) == [s[..n]] + SplitLines(rest);
        JoinCons(s[..n], SplitLines(rest), "\n");
        SplitAround(s, n);
      } else {
        assert s[..n] == s;
      }
    }
  }

  /** A line without breaks followed by a break starts the first line of a text. */
  lemma LineEndOfPrefix(a: string, t: string)
    requires NoLineBreak(a) && t != [] && IsLineBreak(t[0])
    ensures LineEnd(a + t) == |a|
  {
    var s := a + t;
    assert forall i :: 0 <= i < |a| ==> s[i] == a[i];
    assert s[|a|] == t[0];
  }

  /** A line without breaks, a line feed, then more text: the line comes first. */
  lemma SplitLinesCons(a: string, rest: string)
    requires NoLineBreak(a)
    ensures SplitLines(a + "\n" + rest) == [a] + SplitLines(rest)
  {
    var s := a + "\n" + rest;
    assert s == a + ("\n" + rest);
    LineEndOfPrefix(a, "\n" + rest);
    assert s[|a|] == '\n';
    assert s[..|a|] == a && s[|a| + 1..] == rest;
  }

  /** The other direction: lines without breaks, the last one non-empty, come
      back from splitting their join. */
  lemma {:induction false} SplitJoinLines(lines: seq<string>)
    requires lines != [] && lines[|lines| - 1] != []
    requires forall i :: 0 <= i < |lines| ==> NoLineBreak(lines[i])
    ensures SplitLines(JoinLines(lines)) == lines
  {
    var a := lines[0];
    if |lines| == 1 {
      assert LineEnd(a) == |a|;
      assert a[..|a|] == a;
    } else {
      var tail := lines[1..];
      assert tail[|tail| - 1] == lines[|lines| - 1];
      SplitJoinLines(tail);
      JoinCons(a, tail, "\n");
      SplitLinesCons(a, JoinLines(tail));
      assert lines == [a] + tail;
    }
  }

  // -------------------------------------------------------------- title()

  predicate IsLetter(c: char) {
    ('A' <= c <= 'Z') || ('a' <= c <= 'z')
  }

  function Upper(c: char): (u: char)
    ensures IsLetter(c) <==> IsLetter(u)
    ensures !IsLetter(c) ==> u == c
  {
    if 'a' <= c <= 'z' then (c as int - 32) as char else c
  }

  function Lower(c: char): (l: char)
    ensures IsLetter(c) <==> IsLetter(l)
    ensures !IsLetter(c) ==> l == c
  {
    if 'A' <= c <= 'Z' then (c as int + 32) as char else c
  }

  /** How `title()` writes one character: a letter is upper-cased when it
      starts a run of letters and lower-cased otherwise; other characters are
      kept. */
  function CaseChar(c: char, previousCased: bool): char {
    if !IsLetter(c) then c else if previousCased then Lower(c) else Upper(c)
  }

  /** The character at position `i` of `s.title()`. */
  function TitleChar(s: string, i: nat): char
    requires i < |s|
  {
    CaseChar(s[i], i > 0 && IsLetter(s[i - 1]))
  }

  /** One left-to-right pass of Python's `str.title`, carrying whether the
      previous character was cased. */
  function TitleFrom(s: string, previousCased: bool): string {
    if s == [] then "" else [CaseChar(s[0], previousCased)] + TitleFrom(s[1..], IsLetter(s[0]))
  }

  /** Python's `s.title()` on ASCII letters: the length is kept and each
      character is cased as `TitleChar` says. */
  function Title(s: string): (r: string)
    ensures |r| == |s|
    ensures forall i :: 0 <= i < |s| ==> r[i] == TitleChar(s, i)
  {
    TitleAt(s);
    TitleFrom(s, false)
  }

  lemma {:induction false} TitleFromAt(s: string, previousCased: bool, i: nat)
    requires i < |s|
    ensures |TitleFrom(s, previousCased)| == |s|
    ensures TitleFrom(s, previousCased)[i] == CaseChar(s[i], if i == 0 then previousCased else IsLetter(s[i - 1]))
    decreases |s|
  {
    if |s| > 1 {
      TitleFromAt(s[1..], IsLetter(s[0]), if i == 0 then 0 else i - 1);
    }
    if i > 0 {
      assert s[1..][i - 1] == s[i];
      if i > 1 {
        assert s[1..][i - 2] == s[i - 1];
      }
    }
  }

  lemma ConcatAssoc<T>(a: seq<T>, b: seq<T>, c: seq<T>)
    ensures a + (b + c) == (a + b) + c
  {
  }

  lemma TitleFromCons(c: char, s: string, previousCased: bool)
    ensures TitleFrom([c] + s, previousCased) == [CaseChar(c, previousCased)] + TitleFrom(s, IsLetter(c))
  {
    assert ([c] + s)[1..] == s;
  }

  /** `title()` works character by character, so it distributes over
      concatenation once the second part knows how the first one ended. */
  lemma {:induction false} TitleFromAppend(a: string, b: string, previousCased: bool)
    ensures TitleFrom(a + b, previousCased) ==
      TitleFrom(a, previousCased) + TitleFrom(b, if a == [] then previousCased else IsLetter(a[|a| - 1]))
  {
    if a == [] {
      assert a + b == b;
    } else {
      var x, a' := a[0], a[1..];
      var ended := IsLetter(a[|a| - 1]);
      assert a == [x] + a';
      assert a + b == [x] + (a' + b);
      if a' != [] {
        assert a'[|a'| - 1] == a[|a| - 1];
      }
      TitleFromCons(x, a' + b, previousCased);
      TitleFromCons(x, a', previousCased);
      TitleFromAppend(a', b, IsLetter(x));
      var head, ta, tb := [CaseChar(x, previousCased)], TitleFrom(a', IsLetter(x)), TitleFrom(b, ended);
      assert TitleFrom(a' + b, IsLetter(x)) == ta + tb;
      ConcatAssoc(head, ta, tb);
    }
  }

  lemma TitleAt(s: string)
    ensures |TitleFrom(s, false)| == |s|
    ensures forall i :: 0 <= i < |s| ==> TitleFrom(s, false)[i] == TitleChar(s, i)
  {
    if s == [] {
    } else {
      TitleFromAt(s, false, 0);
      forall i | 0 <= i < |s| ensures TitleFrom(s, false)[i] == TitleChar(s, i) {
        TitleFromAt(s, false, i);
      }
    }
  }

  // ------------------------------------------------------------- str(int)

  function DigitChar(d: nat): char
    requires d < 10
  {
    ('0' as int + d) as char
  }

  /** Python's `str(n)` for a natural number: its decimal digits. */
  function Decimal(n: nat): (s: string)
    ensures s != []
    ensures forall i :: 0 <= i < |s| ==> '0' <= s[i] <= '9'
    ensures |s| == 1 <==> n < 10
    ensures s[0] == '0' <==> n == 0
    ensures |s| > 1 ==> s[0] != '0'
  {
    if n < 10 then [DigitChar(n)] else Decimal(n / 10) + [DigitChar(n % 10)]
  }

  /** The value of a string of decimal digits. */
  function DecimalValue(s: string): nat
    requires forall i :: 0 <= i < |s| ==> '0' <= s[i] <= '9'
  {
    if s == [] then 0 else 10 * DecimalValue(s[..|s| - 1]) + (s[|s| - 1] as int - '0' as int)
  }

  /** Decimal notation can be read back. */
  lemma {:induction false} DecimalRoundTrip(n: nat)
    ensures DecimalValue(Decimal(n)) == n
  {
    if n >= 10 {
      DecimalRoundTrip(n / 10);
      var s := Decimal(n);
      assert s[..|s| - 1] == Decimal(n / 10);
    }
  }
}
