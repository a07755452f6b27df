/** The string built-ins the core relies on, restricted to ASCII:
    `lower`, `upper`, `strip`, `split()`, the substring test `in`, and the
    code-point ordering that `<` on strings uses. */
module Text {

  /** Python's `str.isspace` on ASCII: tab to carriage return, the four
      separator controls 0x1C-0x1F, and the space. */
  predicate IsSpace(c: char)
  {
    9 <= c as int <= 13 || 28 <= c as int <= 32
  }

  predicate IsAsciiUpper(c: char) { 'A' <= c <= 'Z' }

  predicate IsAsciiLower(c: char) { 'a' <= c <= 'z' }

  function LowerChar(c: char): char
  {
    if IsAsciiUpper(c) then (c as int + 32) as char else c
  }

  function UpperChar(c: char): char
  {
    if IsAsciiLower(c) then (c as int - 32) as char else c
  }

  /** `s.lower()`: each upper-case letter becomes its lower-case partner,
      everything else is kept. */
  function Lower(s: string): (r: string)
    ensures |r| == |s|
    ensures forall i :: 0 <= i < |r| ==> !IsAsciiUpper(r[i])
    ensures forall i :: 0 <= i < |s| && IsAsciiUpper(s[i]) ==> IsAsciiLower(r[i]) && UpperChar(r[i]) == s[i]
    ensures forall i :: 0 <= i < |s| && !IsAsciiUpper(s[i]) ==> r[i] == s[i]
  {
    seq(|s|, i requires 0 <= i < |s| => LowerChar(s[i]))
  }

  /** `s.upper()`: each lower-case letter becomes its upper-case partner,
      everything else is kept. */
  function Upper(s: string): (r: string)
    ensures |r| == |s|
    ensures forall i :: 0 <= i < |r| ==> !IsAsciiLower(r[i])
    ensures forall i :: 0 <= i < |s| && IsAsciiLower(s[i]) ==> IsAsciiUpper(r[i]) && LowerChar(r[i]) == s[i]
    ensures forall i :: 0 <= i < |s| && !IsAsciiLower(s[i]) ==> r[i] == s[i]
    ensures forall i :: 0 <= i < |s| ==> IsSpace(r[i]) == IsSpace(s[i])
  {
    seq(|s|, i requires 0 <= i < |s| => UpperChar(s[i]))
  }

  /** `[x.lower() for x in xs]`. */
  function LowerAll(xs: seq<string>): (r: seq<string>)
    ensures |r| == |xs| && forall i :: 0 <= i < |xs| ==> r[i] == Lower(xs[i])
  {
    seq(|xs|, i requires 0 <= i < |xs| => Lower(xs[i]))
  }

  /** `[x.upper() for x in xs]`. */
  function UpperAll(xs: seq<string>): (r: seq<string>)
    ensures |r| == |xs| && forall i :: 0 <= i < |xs| ==> r[i] == Upper(xs[i])
  {
    seq(|xs|, i requires 0 <= i < |xs| => Upper(xs[i]))
  }

  /** `needle in hay` for strings. */
  predicate Contains(hay: string, needle: string)
  {
    exists i :: 0 <= i <= |hay| && OccursAt(hay, needle, i)
  }

  predicate OccursAt(hay: string, needle: string, i: nat)
  {
    i + |needle| <= |hay| && hay[i..i + |needle|] == needle
  }

  /** `a <= b` on strings: lexicographic by code point, a prefix first. */
  predicate LexLe(a: string, b: string)
    decreases |a|
  {
    a == [] || (b != [] && (a[0] < b[0] || (a[0] == b[0] && LexLe(a[1..], b[1..]))))
  }

  lemma {:induction false} LexLeTotal(a: string, b: string)
    ensures LexLe(a, b) || LexLe(b, a)
    decreases |a|
  {
    if a != [] && b != [] && a[0] == b[0] {
      LexLeTotal(a[1..], b[1..]);
    }
  }

  lemma {:induction false} LexLeTrans(a: string, b: string, c: string)
    requires LexLe(a, b) && LexLe(b, c)
    ensures LexLe(a, c)
    decreases |a|
  {
    if a != [] && a[0] == b[0] && b[0] == c[0] {
      LexLeTrans(a[1..], b[1..], c[1..]);
    }
  }

  /** `s.lstrip()`: drops the leading whitespace and nothing else. */
  function TrimStart(s: string): (r: string)
    ensures |r| <= |s| && r == s[|s| - |r|..]
    ensures forall i :: 0 <= i < |s| - |r| ==> IsSpace(s[i])
    ensures r == [] || !IsSpace(r[0])
    decreases |s|
  {
    if s != [] && IsSpace(s[0]) then TrimStart(s[1..]) else s
  }

  /** `s.rstrip()`: drops the trailing whitespace and nothing else. */
  function TrimEnd(s: string): (r: string)
    ensures |r| <= |s| && r == s[..|r|]
    ensures forall i :: |r| <= i < |s| ==> IsSpace(s[i])
    ensures r == [] || !IsSpace(r[|r| - 1])
    decreases |s|
  {
    if s != [] && IsSpace(s[|s| - 1]) then TrimEnd(s[..|s| - 1]) else s
  }

  /** `s.strip()`. */
  function Strip(s: string): (r: string)
    ensures r == [] || (!IsSpace(r[0]) && !IsSpace(r[|r| - 1]))
    ensures exists a :: 0 <= a && StrippedAt(s, r, a)
  {
    var t := TrimStart(s);
    var r := TrimEnd(t);
    assert s[|s| - |t|..|s| - |t| + |r|] == r;
    assert StrippedAt(s, r, |s| - |t|);
    r
  }

  /** `r` is `s[a..]` cut short, with only whitespace around it. */
  predicate StrippedAt(s: string, r: string, a: nat)
  {
    && a + |r| <= |s| && s[a..a + |r|] == r
    && (forall i :: 0 <= i < a ==> IsSpace(s[i]))
    && (forall i :: a + |r| <= i < |s| ==> IsSpace(s[i]))
  }

  /** A token of `split()`: non-empty and free of whitespace. */
  predicate IsToken(w: string)
  {
    w != [] && forall i :: 0 <= i < |w| ==> !IsSpace(w[i])
  }

  /** Length of the longest whitespace-free prefix of `t`. */
  function WordLength(t: string): (n: nat)
    ensures n <= |t|
    ensures forall i :: 0 <= i < n ==> !IsSpace(t[i])
    ensures n < |t| ==> IsSpace(t[n])
    decreases |t|
  {
    if t == [] || IsSpace(t[0]) then 0 else 1 + WordLength(t[1..])
  }

  /** `s.split()` with no separator: the maximal runs of non-whitespace. */
  function Split(s: string): (ws: seq<string>)
    ensures forall i :: 0 <= i < |ws| ==> IsToken(ws[i])
    decreases |s|
  {
    if TrimStart(s) == [] then []
    else
      var rest := Split(After(s));
      ConsTokens(Word(s), rest);
      [Word(s)] + rest
  }

  lemma ConsTokens(w: string, rest: seq<string>)
    requires IsToken(w) && forall i :: 0 <= i < |rest| ==> IsToken(rest[i])
    ensures forall i :: 0 <= i < |rest| + 1 ==> IsToken(([w] + rest)[i])
  {
    forall i | 0 < i < |rest| + 1 ensures IsToken(([w] + rest)[i]) {
      assert ([w] + rest)[i] == rest[i - 1];
    }
  }

  /** `" ".join(ws)`. */
  function JoinSpaced(ws: seq<string>): string
  {
    if ws == [] then "" else if |ws| == 1 then ws[0] else ws[0] + " " + JoinSpaced(ws[1..])
  }

  /** Splitting tokens joined by single spaces gives the tokens back. */
  lemma {:induction false} SplitJoinSpaced(ws: seq<string>)
    requires forall i :: 0 <= i < |ws| ==> IsToken(ws[i])
    ensures Split(JoinSpaced(ws)) == ws
    decreases |ws|
  {
    if ws == [] {
      assert Split("") == [];
    } else if |ws| == 1 {
      SplitSingle(ws[0]);
    } else {
      SplitJoinSpaced(ws[1..]);
      SplitSpacedCons(ws[0], JoinSpaced(ws[1..]));
      HeadTail(ws);
    }
  }

  lemma HeadTail(ws: seq<string>)
    requires ws != []
    ensures [ws[0]] + ws[1..] == ws
  {
  }

  lemma SplitSingle(w: string)
    requires IsToken(w)
    ensures Split(JoinSpaced([w])) == [w]
  {
    assert JoinSpaced([w]) == w + "";
    SplitTokenThen(w, "");
    assert Split("") == [];
  }

  /** A token and a single space come off the front whole. */
  lemma SplitSpacedCons(w: string, rest: string)
    requires IsToken(w)
    ensures Split(w + " " + rest) == [w] + Split(rest)
  {
    assert w + " " + rest == w + (" " + rest);
    SplitTokenThen(w, " " + rest);
    SplitSkipsSpace(rest);
  }

  /** A token followed by whitespace (or nothing) is split off whole. */
  lemma SplitTokenThen(w: string, tail: string)
    requires IsToken(w)
    requires tail == [] || IsSpace(tail[0])
    ensures Split(w + tail) == [w] + Split(tail)
  {
    var s := w + tail;
    assert TrimStart(s) == s;
    WordLengthOfToken(w, tail);
    assert s[..|w|] == w && s[|w|..] == tail;
  }

  lemma SplitSkipsSpace(t: string)
    ensures Split(" " + t) == Split(t)
  {
    assert (" " + t)[1..] == t;
    assert TrimStart(" " + t) == TrimStart(t);
  }

  lemma {:induction false} WordLengthOfToken(w: string, tail: string)
    requires IsToken(w)
    requires tail == [] || IsSpace(tail[0])
    ensures WordLength(w + tail) == |w|
    decreases |w|
  {
    assert (w + tail)[1..] == w[1..] + tail;
    if |w| == 1 {
      assert w[1..] + tail == tail;
    } else {
      WordLengthOfToken(w[1..], tail);
    }
  }

  /** Only whitespace. */
  predicate AllSpace(g: string)
  {
    forall i :: 0 <= i < |g| ==> IsSpace(g[i])
  }

  /** The leading whitespace of `s`. */
  function Lead(s: string): (g: string)
    ensures AllSpace(g)
    ensures g + TrimStart(s) == s
  {
    var t := TrimStart(s);
    var g := s[..|s| - |t|];
    assert forall i :: 0 <= i < |g| ==> g[i] == s[i];
    g
  }

  /** The first token of `s`. */
  function Word(s: string): (w: string)
    requires TrimStart(s) != []
    ensures IsToken(w)
  {
    var t := TrimStart(s);
    var n := WordLength(t);
    assert n > 0 by {
      assert !IsSpace(t[0]);
    }
    assert forall i :: 0 <= i < n ==> t[..n][i] == t[i];
    t[..n]
  }

  /** What follows the first token of `s`: empty, or starting with whitespace. */
  function After(s: string): (u: string)
    requires TrimStart(s) != []
    ensures |u| < |s|
    ensures u == [] || IsSpace(u[0])
  {
    var t := TrimStart(s);
    assert WordLength(t) > 0 by {
      assert !IsSpace(t[0]);
    }
    t[WordLength(t)..]
  }

  /** `s` is its leading whitespace, its first token and the rest. */
  lemma Decompose(s: string)
    requires TrimStart(s) != []
    ensures s == Lead(s) + Word(s) + After(s)
  {
    var t := TrimStart(s);
    ConcatCut(Lead(s), t, WordLength(t));
  }

  lemma ConcatCut(g: string, t: string, n: nat)
    requires n <= |t|
    ensures g + t == g + t[..n] + t[n..]
  {
    assert t == t[..n] + t[n..];
  }

  /** The whitespace runs around and between the tokens of `Split(s)`. */
  function Gaps(s: string): seq<string>
    decreases |s|
  {
    if TrimStart(s) == [] then [Lead(s)] else [Lead(s)] + Gaps(After(s))
  }

  /** Every gap is whitespace, the inner ones are not empty, and the first
      is not empty when `s` starts with whitespace. */
  lemma GapsShape(s: string)
    ensures forall i :: 0 <= i < |Gaps(s)| ==> AllSpace(Gaps(s)[i])
    ensures forall i :: 0 < i < |Gaps(s)| - 1 ==> Gaps(s)[i] != []
    ensures s != [] && IsSpace(s[0]) ==> Gaps(s)[0] != []
  {
    GapsAllSpace(s);
    GapsInner(s);
    if s != [] && IsSpace(s[0]) {
      GapsFirst(s);
    }
  }

  lemma {:induction false} GapsAllSpace(s: string)
    ensures forall i :: 0 <= i < |Gaps(s)| ==> AllSpace(Gaps(s)[i])
    decreases |s|
  {
    if TrimStart(s) != [] {
      var rest := Gaps(After(s));
      GapsAllSpace(After(s));
      assert Gaps(s) == [Lead(s)] + rest;
    }
  }

  lemma GapsFirst(s: string)
    requires s != [] && IsSpace(s[0])
    ensures Gaps(s)[0] != []
  {
    assert |TrimStart(s)| < |s|;
  }

  lemma {:induction false} GapsInner(s: string)
    ensures forall i :: 0 < i < |Gaps(s)| - 1 ==> Gaps(s)[i] != []
    decreases |s|
  {
    if TrimStart(s) != [] {
      var u := After(s);
      var rest := Gaps(u);
      GapsInner(u);
      assert Gaps(s) == [Lead(s)] + rest;
      if u == [] {
        assert |rest| == 1;
      } else {
        GapsFirst(u);
      }
    }
  }

  /** The gaps and the tokens, alternately, starting and ending with a gap. */
  function Weave(gs: seq<string>, ws: seq<string>): string
    requires |gs| == |ws| + 1
    decreases |ws|
  {
    if ws == [] then gs[0] else gs[0] + ws[0] + Weave(gs[1..], ws[1..])
  }

  /** `s` is its tokens interleaved with its gaps, one more gap than tokens.
      With `GapsShape` and the tokens being whitespace-free, this pins down
      `split()`: the tokens are the maximal runs of non-whitespace of `s`. */
  lemma {:induction false} SplitWeave(s: string)
    ensures |Gaps(s)| == |Split(s)| + 1 && Weave(Gaps(s), Split(s)) == s
    decreases |s|
  {
    if TrimStart(s) != [] {
      var u := After(s);
      SplitWeave(u);
      Decompose(s);
      assert Gaps(s) == [Lead(s)] + Gaps(u);
      assert Weave(Gaps(s), Split(s)) == Lead(s) + Word(s) + Weave(Gaps(u), Split(u));
    } else {
      assert Lead(s) + [] == s;
    }
  }
}
