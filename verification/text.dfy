/** Strings as the chat page handles them: the whitespace set that
    `String.prototype.trim` strips, trimming itself, and the `join("")`
    that glues message parts together. */
module Text {

  /** The code points of ECMAScript's WhiteSpace and LineTerminator
      productions: tab, line tabulation, form feed, zero-width no-break space,
      the space separators, line feed, carriage return and the line and
      paragraph separators. */
  const Whitespace: seq<char> := [
    '\t', '\n', '\U{000B}', '\U{000C}', '\r', ' ', '\U{00A0}', '\U{1680}',
    '\U{2000}', '\U{2001}', '\U{2002}', '\U{2003}', '\U{2004}', '\U{2005}',
    '\U{2006}', '\U{2007}', '\U{2008}', '\U{2009}', '\U{200A}',
    '\U{2028}', '\U{2029}', '\U{202F}', '\U{205F}', '\U{3000}', '\U{FEFF}'
  ]

  /** `c` occurs in `cs`, looked up one element at a time. */
  predicate Among(c: char, cs: seq<char>) {
    cs != [] && (c == cs[0] || Among(c, cs[1..]))
  }

  predicate IsWhitespace(c: char) {
    Among(c, Whitespace)
  }

  lemma {:induction false} AmongAt(c: char, cs: seq<char>, i: nat)
    requires i < |cs| && cs[i] == c
    ensures Among(c, cs)
    decreases i
  {
    if i > 0 {
      AmongAt(c, cs[1..], i - 1);
    }
  }

  lemma {:induction false} NotAmongVisible(c: char, cs: seq<char>)
    requires '!' <= c <= '~'
    requires forall i :: 0 <= i < |cs| ==> cs[i] < '!' || '~' < cs[i]
    ensures !Among(c, cs)
    decreases |cs|
  {
    if cs != [] {
      NotAmongVisible(c, cs[1..]);
    }
  }

  /** The space character is whitespace. */
  lemma SpaceIsWhitespace()
    ensures IsWhitespace(' ')
  {
    AmongAt(' ', Whitespace, 5);
  }

  /** No visible ASCII character (`!` to `~`) is whitespace: every whitespace
      code point is a control character, the space, or beyond ASCII. */
  lemma VisibleAsciiNotWhitespace(c: char)
    requires '!' <= c <= '~'
    ensures !IsWhitespace(c)
  {
    forall i | 0 <= i < |Whitespace| ensures Whitespace[i] < '!' || '~' < Whitespace[i] {
    }
    NotAmongVisible(c, Whitespace);
  }

  predicate AllWhitespace(s: string) {
    forall i :: 0 <= i < |s| ==> IsWhitespace(s[i])
  }

  /** Neither end of `s` is whitespace (trivially so for the empty string). */
  predicate Trimmed(s: string) {
    s == [] || (!IsWhitespace(s[0]) && !IsWhitespace(s[|s| - 1]))
  }

  /** `r` is `s` with some whitespace cut off the front and some off the back. */
  ghost predicate StripsTo(s: string, r: string) {
    exists k :: 0 <= k <= |s| - |r| && Framed(s, r, k)
  }

  /** `r` sits in `s` at offset `k`, with only whitespace before and after it. */
  ghost predicate Framed(s: string, r: string, k: int)
    requires 0 <= k <= |s| - |r|
  {
    && s[k..k + |r|] == r
    && AllWhitespace(s[..k])
    && AllWhitespace(s[k + |r|..])
  }

  /** Drops the leading whitespace of `s`. */
  function TrimStart(s: string): (r: string)
    ensures |r| <= |s|
    ensures r == s[|s| - |r|..]
    ensures AllWhitespace(s[..|s| - |r|])
    ensures r == [] || !IsWhitespace(r[0])
  {
    if s != [] && IsWhitespace(s[0]) then
      var r := TrimStart(s[1..]);
      TrimStartStep(s, r);
      r
    else
      s
  }

  /** Drops the trailing whitespace of `s`. */
  function TrimEnd(s: string): (r: string)
    ensures |r| <= |s|
    ensures r == s[..|r|]
    ensures AllWhitespace(s[|r|..])
    ensures r == [] || !IsWhitespace(r[|r| - 1])
  {
    if s != [] && IsWhitespace(s[|s| - 1]) then
      var r := TrimEnd(s[..|s| - 1]);
      TrimEndStep(s, r);
      r
    else
      s
  }

  lemma TrimStartStep(s: string, r: string)
    requires s != [] && IsWhitespace(s[0])
    requires |r| <= |s| - 1 && r == s[1..][|s| - 1 - |r|..] && AllWhitespace(s[1..][..|s| - 1 - |r|])
    ensures r == s[|s| - |r|..] && AllWhitespace(s[..|s| - |r|])
  {
    assert s[..|s| - |r|] == [s[0]] + s[1..][..|s| - 1 - |r|];
    AllWhitespaceAppend([s[0]], s[1..][..|s| - 1 - |r|]);
  }

  lemma TrimEndStep(s: string, r: string)
    requires s != [] && IsWhitespace(s[|s| - 1])
    requires |r| <= |s| - 1 && r == s[..|s| - 1][..|r|] && AllWhitespace(s[..|s| - 1][|r|..])
    ensures r == s[..|r|] && AllWhitespace(s[|r|..])
  {
    assert s[|r|..] == s[..|s| - 1][|r|..] + [s[|s| - 1]];
    AllWhitespaceAppend(s[..|s| - 1][|r|..], [s[|s| - 1]]);
  }

  /** `input.trim()`: whitespace removed from both ends, nothing else touched. */
  function Trim(s: string): (r: string)
    ensures Trimmed(r)
    ensures StripsTo(s, r)
    ensures r == [] <==> AllWhitespace(s)
  {
    var t := TrimStart(s);
    var r := TrimEnd(t);
    TrimFrames(s, t, r);
    r
  }

  /** The frame `TrimEnd(TrimStart(s))` leaves: whitespace before, whitespace after.
      The requires are exactly what `TrimStart(s) == t` and `TrimEnd(t) == r`
      guarantee, passed as plain facts so the proof stays small. */
  lemma TrimFrames(s: string, t: string, r: string)
    requires |t| <= |s| && t == s[|s| - |t|..] && AllWhitespace(s[..|s| - |t|])
    requires t == [] || !IsWhitespace(t[0])
    requires |r| <= |t| && r == t[..|r|] && AllWhitespace(t[|r|..])
    requires r == [] || !IsWhitespace(r[|r| - 1])
    ensures Trimmed(r)
    ensures StripsTo(s, r)
    ensures r == [] <==> AllWhitespace(s)
  {
    if r != [] {
      assert r[0] == t[0];
    }
    TrimFramed(s, t, r);
    assert 0 <= |s| - |t| <= |s| - |r| && Framed(s, r, |s| - |t|);
    TrimEmptiness(s, t, r);
  }

  lemma TrimEmptiness(s: string, t: string, r: string)
    requires |t| <= |s| && t == s[|s| - |t|..] && AllWhitespace(s[..|s| - |t|])
    requires t == [] || !IsWhitespace(t[0])
    requires |r| <= |t| && r == t[..|r|] && AllWhitespace(t[|r|..])
    ensures r == [] <==> AllWhitespace(s)
  {
    var k := |s| - |t|;
    if r == [] {
      assert t[|r|..] == t;
      assert s == s[..k] + t;
      AllWhitespaceAppend(s[..k], t);
    } else {
      assert s[k] == t[0];
    }
  }

  lemma AllWhitespaceAppend(a: string, b: string)
    requires AllWhitespace(a) && AllWhitespace(b)
    ensures AllWhitespace(a + b)
  {
    forall i | 0 <= i < |a + b| ensures IsWhitespace((a + b)[i]) {
      if i < |a| { assert (a + b)[i] == a[i]; } else { assert (a + b)[i] == b[i - |a|]; }
    }
  }

  lemma TrimFramed(s: string, t: string, r: string)
    requires |t| <= |s| && t == s[|s| - |t|..] && AllWhitespace(s[..|s| - |t|])
    requires |r| <= |t| && r == t[..|r|] && AllWhitespace(t[|r|..])
    ensures Framed(s, r, |s| - |t|)
  {
    var k := |s| - |t|;
    assert s[k..k + |r|] == s[k..][..|r|];
    assert s[k + |r|..] == t[|r|..];
  }

  lemma {:induction false} TrimStartSkips(lead: string, rest: string)
    requires AllWhitespace(lead)
    requires rest == [] || !IsWhitespace(rest[0])
    ensures TrimStart(lead + rest) == rest
    decreases |lead|
  {
    if lead != [] {
      assert (lead + rest)[1..] == lead[1..] + rest;
      TrimStartSkips(lead[1..], rest);
    } else {
      assert lead + rest == rest;
    }
  }

  lemma {:induction false} TrimEndSkips(rest: string, trail: string)
    requires AllWhitespace(trail)
    requires rest == [] || !IsWhitespace(rest[|rest| - 1])
    ensures TrimEnd(rest + trail) == rest
    decreases |trail|
  {
    if trail != [] {
      var n := |trail| - 1;
      assert (rest + trail)[..|rest + trail| - 1] == rest + trail[..n];
      TrimEndSkips(rest, trail[..n]);
    } else {
      assert rest + trail == rest;
    }
  }

  /** Trimming is fully determined by its frame: whatever whitespace is
      wrapped around a trimmed core, `Trim` gives back exactly that core. */
  lemma TrimUnique(lead: string, core: string, trail: string)
    requires AllWhitespace(lead) && AllWhitespace(trail) && Trimmed(core)
    ensures Trim(lead + core + trail) == core
  {
    var s := lead + core + trail;
    if core == [] {
      assert AllWhitespace(s) by {
        forall i | 0 <= i < |s| ensures IsWhitespace(s[i]) {
          if i < |lead| { assert s[i] == lead[i]; } else { assert s[i] == trail[i - |lead|]; }
        }
      }
    } else {
      assert s == lead + (core + trail);
      TrimStartSkips(lead, core + trail);
      TrimEndSkips(core, trail);
    }
  }

  lemma Split3(s: string, i: int, j: int)
    requires 0 <= i <= j <= |s|
    ensures s == s[..i] + s[i..j] + s[j..]
  {
  }

  /** A trimmed string framed by whitespace in `s` is `Trim(s)`. */
  lemma FramedIsTrim(s: string, a: string, k: int)
    requires 0 <= k <= |s| - |a| && Framed(s, a, k) && Trimmed(a)
    ensures Trim(s) == a
  {
    Split3(s, k, k + |a|);
    TrimUnique(s[..k], a, s[k + |a|..]);
  }

  /** Two trimmed strings that both strip from the same `s` are equal: the
      contract of `Trim` pins its result down completely. */
  lemma StripsToUnique(s: string, a: string, b: string)
    requires StripsTo(s, a) && Trimmed(a)
    requires StripsTo(s, b) && Trimmed(b)
    ensures a == b
  {
    var i :| 0 <= i <= |s| - |a| && Framed(s, a, i);
    FramedIsTrim(s, a, i);
    var j :| 0 <= j <= |s| - |b| && Framed(s, b, j);
    FramedIsTrim(s, b, j);
  }

  /** Trimming twice is trimming once. */
  lemma TrimIdempotent(s: string)
    ensures Trim(Trim(s)) == Trim(s)
  {
    TrimOfTrimmed(Trim(s));
  }

  /** A string without whitespace at its ends is its own trim. */
  lemma TrimOfTrimmed(r: string)
    requires Trimmed(r)
    ensures Trim(r) == r
  {
    assert [] + r + [] == r;
    TrimUnique([], r, []);
  }

  /** `join("")`: the strings of `ss` one after another. */
  function Concat(ss: seq<string>): (r: string)
    ensures |ss| > 0 ==> ss[0] <= r
    ensures |ss| == 1 ==> r == ss[0]
    ensures r == [] <==> forall i :: 0 <= i < |ss| ==> ss[i] == []
  {
    if ss == [] then [] else ss[0] + Concat(ss[1..])
  }

  /** `join` distributes over appending lists. */
  lemma {:induction false} ConcatAppend(a: seq<string>, b: seq<string>)
    ensures Concat(a + b) == Concat(a) + Concat(b)
    decreases |a|
  {
    if a == [] {
      assert a + b == b;
    } else {
      assert (a + b)[1..] == a[1..] + b;
      ConcatAppend(a[1..], b);
    }
  }
}
