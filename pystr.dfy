/** Python's built-in string operations that the `net user` parsers rely on, written out
    character by character so that their edge cases are explicit: `sub in s`,
    `s.split(sep)`, `s.split(sep, 1)`, `s.split()`, `s.strip()`, `s.strip('*')`,
    `s.splitlines()` and `sep.join(parts)`. */
module PyStr {

  datatype Option<T> = None | Some(value: T)

  // ------------------------------------------------------------------
  // Character classes
  // ------------------------------------------------------------------

  /** `c.isspace()`: the separators of `split()` and the characters `strip()` removes. */
  predicate IsSpace(c: char) {
    || ('\t' <= c <= '\r')
    || ('\U{1c}' <= c <= '\U{1f}')
    || c == ' ' || c == '\U{85}' || c == '\U{a0}' || c == '\U{1680}'
    || ('\U{2000}' <= c <= '\U{200a}')
    || c == '\U{2028}' || c == '\U{2029}' || c == '\U{202f}' || c == '\U{205f}' || c == '\U{3000}'
  }

  predicate NotSpace(c: char) { !IsSpace(c) }

  predicate IsStar(c: char) { c == '*' }

  /** The line boundaries of `splitlines()`: \n \v \f \r \x1c \x1d \x1e \x85
      (and the pair \r\n, which counts as one boundary). */
  predicate IsLineBreak(c: char) {
    || ('\n' <= c <= '\r')
    || ('\U{1c}' <= c <= '\U{1e}')
    || c == '\U{85}' || c == '\U{2028}' || c == '\U{2029}'
  }

  predicate NotLineBreak(c: char) { !IsLineBreak(c) }

  predicate NoLineBreak(t: string) {
    forall m :: 0 <= m < |t| ==> NotLineBreak(t[m])
  }

  /** A token of `split()`: a non-empty run of non-whitespace characters. */
  predicate IsToken(t: string) {
    t != [] && forall m :: 0 <= m < |t| ==> NotSpace(t[m])
  }

  // ------------------------------------------------------------------
  // Substring search: `sub in s`
  // ------------------------------------------------------------------

  predicate OccursAt(s: string, sub: string, i: nat) {
    i + |sub| <= |s| && s[i..i + |sub|] == sub
  }

  /** The first occurrence of `sub` in `s` at or after index `i`. */
  function FindFrom(s: string, sub: string, i: nat): Option<nat>
    decreases |s| - i
  {
    if i + |sub| > |s| then None
    else if s[i..i + |sub|] == sub then Some(i)
    else FindFrom(s, sub, i + 1)
  }

  lemma {:induction false} FindFromSpec(s: string, sub: string, i: nat)
    ensures var r := FindFrom(s, sub, i);
            && (r.Some? ==> i <= r.value && OccursAt(s, sub, r.value))
            && (r.Some? ==> forall j :: i <= j < r.value ==> !OccursAt(s, sub, j))
            && (r.None? ==> forall j :: i <= j ==> !OccursAt(s, sub, j))
    decreases |s| - i
  {
    if i + |sub| <= |s| && s[i..i + |sub|] != sub {
      FindFromSpec(s, sub, i + 1);
    }
  }

  /** `s.find(sub)`, with -1 as None. */
  function Find(s: string, sub: string): Option<nat> {
    FindFrom(s, sub, 0)
  }

  /** `find` returns the first occurrence, or None when there is none. */
  lemma FindSpec(s: string, sub: string)
    ensures Find(s, sub).Some? ==> OccursAt(s, sub, Find(s, sub).value)
    ensures Find(s, sub).Some? ==> forall j: nat :: j < Find(s, sub).value ==> !OccursAt(s, sub, j)
    ensures Find(s, sub).None? ==> forall j :: !OccursAt(s, sub, j)
  {
    FindFromSpec(s, sub, 0);
  }

  /** `sub in s`. */
  predicate Contains(s: string, sub: string) {
    Find(s, sub).Some?
  }

  lemma ContainsSpec(s: string, sub: string)
    ensures Contains(s, sub) <==> exists i: nat :: OccursAt(s, sub, i)
  {
    FindSpec(s, sub);
  }

  /** No occurrence starting before `i` means no occurrence at all in `s[..i]`. */
  lemma NoOccurrenceInPrefix(s: string, sub: string, i: nat)
    requires sub != "" && i <= |s|
    requires forall j: nat :: j < i ==> !OccursAt(s, sub, j)
    ensures !Contains(s[..i], sub)
  {
    ContainsSpec(s[..i], sub);
    forall j: nat | OccursAt(s[..i], sub, j)
      ensures false
    {
      assert s[..i][j..j + |sub|] == s[j..j + |sub|];
      assert OccursAt(s, sub, j);
    }
  }

  // ------------------------------------------------------------------
  // join, split(sep), split(sep, 1)
  // ------------------------------------------------------------------

  /** `sep.join(parts)`. */
  function Join(parts: seq<string>, sep: string): string {
    if |parts| == 0 then ""
    else if |parts| == 1 then parts[0]
    else parts[0] + sep + Join(parts[1..], sep)
  }

  /** `s.split(sep)` for a non-empty separator. */
  function Split(s: string, sep: string): seq<string>
    requires sep != ""
    decreases |s|
  {
    match Find(s, sep)
    case None => [s]
    case Some(i) =>
      FindSpec(s, sep);
      [s[..i]] + Split(s[i + |sep|..], sep)
  }

  /** `split(sep)` keeps empty pieces, so there is always at least one piece; no piece
      contains the separator; joining the pieces with it gives `s` back; the first
      piece ends at the first occurrence, and the other pieces are the split of what
      follows it; so every cut is at the leftmost occurrence not yet consumed. */
  lemma {:induction false} SplitSpec(s: string, sep: string)
    requires sep != ""
    ensures var r := Split(s, sep);
            && |r| >= 1 && Join(r, sep) == s
            && (forall k :: 0 <= k < |r| ==> !Contains(r[k], sep))
            && (|r| >= 2 ==> OccursAt(s, sep, |r[0]|) && forall j: nat :: j < |r[0]| ==> !OccursAt(s, sep, j))
            && (|r| >= 2 ==> r[1..] == Split(s[|r[0]| + |sep|..], sep))
    decreases |s|
  {
    FindSpec(s, sep);
    match Find(s, sep)
    case None =>
    case Some(i) =>
      NoOccurrenceInPrefix(s, sep, i);
      var rest := s[i + |sep|..];
      SplitSpec(rest, sep);
      assert s == s[..i] + sep + rest by {
        assert s[i..i + |sep|] == sep;
      }
      var r := Split(s, sep);
      assert r == [s[..i]] + Split(rest, sep);
      assert r[1..] == Split(rest, sep);
      forall k | 0 <= k < |r| ensures !Contains(r[k], sep) {
        if k > 0 { assert r[k] == Split(rest, sep)[k - 1]; }
      }
  }

  /** `s.split(sep, 1)`: cut at the first occurrence of `sep`, if any. */
  function SplitOnce(s: string, sep: string): seq<string>
    requires sep != ""
  {
    match Find(s, sep)
    case None => [s]
    case Some(i) =>
      FindSpec(s, sep);
      [s[..i], s[i + |sep|..]]
  }

  /** `split(sep, 1)` gives one piece, `s` itself, when `sep` does not occur; otherwise
      the text before the first occurrence and the text after it. */
  lemma SplitOnceSpec(s: string, sep: string)
    requires sep != ""
    ensures var r := SplitOnce(s, sep);
            && (|r| == 1 || |r| == 2)
            && (|r| == 1 <==> !Contains(s, sep))
            && (|r| == 1 ==> r[0] == s)
            && (|r| == 2 ==> r[0] + sep + r[1] == s && !Contains(r[0], sep))
            && (|r| == 2 ==> OccursAt(s, sep, |r[0]|) && forall j: nat :: j < |r[0]| ==> !OccursAt(s, sep, j))
  {
    FindSpec(s, sep);
    match Find(s, sep)
    case None =>
    case Some(i) =>
      NoOccurrenceInPrefix(s, sep, i);
      assert s == s[..i] + sep + s[i + |sep|..] by {
        assert s[i..i + |sep|] == sep;
      }
  }

  // ------------------------------------------------------------------
  // strip() and strip('*')
  // ------------------------------------------------------------------

  /** The number of leading characters of `s` that satisfy `p`. */
  function LeadCount(s: string, p: char -> bool): (n: nat)
    ensures n <= |s|
    ensures forall k :: 0 <= k < n ==> p(s[k])
    ensures n < |s| ==> !p(s[n])
    decreases |s|
  {
    if s != [] && p(s[0]) then 1 + LeadCount(s[1..], p) else 0
  }

  /** The number of trailing characters of `s` that satisfy `p`. */
  function TrailCount(s: string, p: char -> bool): (n: nat)
    ensures n <= |s|
    ensures forall k :: |s| - n <= k < |s| ==> p(s[k])
    ensures n < |s| ==> !p(s[|s| - 1 - n])
    decreases |s|
  {
    if s != [] && p(s[|s| - 1]) then 1 + TrailCount(s[..|s| - 1], p) else 0
  }

  /** `s.strip(chars)` where `p` tells which characters belong to `chars`. */
  function Trim(s: string, p: char -> bool): string {
    var i := LeadCount(s, p);
    s[i..|s| - TrailCount(s[i..], p)]
  }

  /** What `strip` leaves: the infix of `s` obtained by removing characters
      satisfying `p` from both ends, and no more (its ends do not satisfy `p`). */
  lemma TrimSpec(s: string, p: char -> bool)
    ensures exists i, j :: 0 <= i <= j <= |s| && Trim(s, p) == s[i..j]
                        && (forall k :: 0 <= k < i ==> p(s[k]))
                        && (forall k :: j <= k < |s| ==> p(s[k]))
    ensures Trim(s, p) != [] ==> !p(Trim(s, p)[0]) && !p(Trim(s, p)[|Trim(s, p)| - 1])
  {
    var i := LeadCount(s, p);
    var j := |s| - TrailCount(s[i..], p);
    assert forall k :: j <= k < |s| ==> s[k] == s[i..][k - i];
    assert Trim(s, p) == s[i..j];
  }

  /** `s.strip()`. */
  function Strip(s: string): string {
    Trim(s, IsSpace)
  }

  /** `s.strip('*')`: removes asterisks only; whitespace is kept. */
  function StripStars(s: string): string {
    Trim(s, IsStar)
  }

  /** Trimming twice is trimming once. */
  lemma TrimIdempotent(s: string, p: char -> bool)
    ensures Trim(Trim(s, p), p) == Trim(s, p)
  {
    var r := Trim(s, p);
    TrimSpec(s, p);
    if r != [] {
      assert LeadCount(r, p) == 0;
      assert TrailCount(r, p) == 0;
      assert r[0..|r|] == r;
    }
  }

  /** Leading characters that all satisfy `p` add their number to the count. */
  lemma {:induction false} LeadCountAll(a: string, b: string, p: char -> bool)
    requires forall k :: 0 <= k < |a| ==> p(a[k])
    ensures LeadCount(a + b, p) == |a| + LeadCount(b, p)
    decreases |a|
  {
    if a != [] {
      assert (a + b)[0] == a[0] && (a + b)[1..] == a[1..] + b;
      LeadCountAll(a[1..], b, p);
    } else {
      assert a + b == b;
    }
  }

  /** A count that stops inside `a` is not changed by what follows `a`. */
  lemma {:induction false} LeadCountWithin(a: string, b: string, p: char -> bool)
    requires LeadCount(a, p) < |a|
    ensures LeadCount(a + b, p) == LeadCount(a, p)
    decreases |a|
  {
    assert (a + b)[0] == a[0];
    if p(a[0]) {
      assert (a + b)[1..] == a[1..] + b;
      LeadCountWithin(a[1..], b, p);
    }
  }

  /** Trailing characters that all satisfy `p` add their number to the count. */
  lemma {:induction false} TrailCountAll(a: string, b: string, p: char -> bool)
    requires forall k :: 0 <= k < |b| ==> p(b[k])
    ensures TrailCount(a + b, p) == TrailCount(a, p) + |b|
    decreases |b|
  {
    var s := a + b;
    if b != [] {
      assert s[|s| - 1] == b[|b| - 1] && s[..|s| - 1] == a + b[..|b| - 1];
      TrailCountAll(a, b[..|b| - 1], p);
    } else {
      assert s == a;
    }
  }

  /** Characters of the stripped set appended to a string do not change its strip. */
  lemma {:induction false} TrimPadRight(a: string, pad: string, p: char -> bool)
    requires forall k :: 0 <= k < |pad| ==> p(pad[k])
    ensures Trim(a + pad, p) == Trim(a, p)
  {
    if LeadCount(a, p) < |a| {
      TrimPadInner(a, pad, p);
    } else {
      TrimPadBlank(a, pad, p);
    }
  }

  /** `TrimPadRight` when `a` holds a character outside the set. */
  lemma {:induction false} TrimPadInner(a: string, pad: string, p: char -> bool)
    requires forall k :: 0 <= k < |pad| ==> p(pad[k])
    requires LeadCount(a, p) < |a|
    ensures Trim(a + pad, p) == Trim(a, p)
  {
    var i := LeadCount(a, p);
    var t := a[i..];
    LeadCountWithin(a, pad, p);
    assert (a + pad)[i..] == t + pad;
    TrailCountAll(t, pad, p);
    TrimAt(a + pad, i, t + pad, p);
    TrimAt(a, i, t, p);
    PrefixOfConcat(t, pad, TrailCount(t, p));
  }

  /** Cutting the appended part and `n` more characters off `t + pad`. */
  lemma {:induction false} PrefixOfConcat(t: string, pad: string, n: nat)
    requires n <= |t|
    ensures (t + pad)[..|t + pad| - (n + |pad|)] == t[..|t| - n]
  {
  }

  /** Unfolding `Trim` when its leading count and the rest are known. */
  lemma {:induction false} TrimAt(s: string, i: nat, t: string, p: char -> bool)
    requires LeadCount(s, p) == i && s[i..] == t
    ensures Trim(s, p) == t[..|t| - TrailCount(t, p)]
  {
  }

  /** `TrimPadRight` when all of `a` is in the set: both strips are empty. */
  lemma {:induction false} TrimPadBlank(a: string, pad: string, p: char -> bool)
    requires forall k :: 0 <= k < |pad| ==> p(pad[k])
    requires LeadCount(a, p) == |a|
    ensures Trim(a + pad, p) == [] && Trim(a, p) == []
  {
    LeadCountAll(a, pad, p);
    LeadCountAll(pad, [], p);
    assert pad + [] == pad;
  }

  /** Characters of the stripped set put in front of a string do not change its strip. */
  lemma {:induction false} TrimPadLeft(pad: string, b: string, p: char -> bool)
    requires forall k :: 0 <= k < |pad| ==> p(pad[k])
    ensures Trim(pad + b, p) == Trim(b, p)
  {
    LeadCountAll(pad, b, p);
    var i := LeadCount(b, p);
    assert (pad + b)[|pad| + i..] == b[i..];
    TrimAt(pad + b, |pad| + i, b[i..], p);
    TrimAt(b, i, b[i..], p);
  }

  // ------------------------------------------------------------------
  // split() on whitespace runs
  // ------------------------------------------------------------------

  /** `s.split()`: the maximal runs of non-whitespace characters, in order. */
  function SplitWs(s: string): (r: seq<string>)
    ensures forall k :: 0 <= k < |r| ==> IsToken(r[k])
    decreases |s|
  {
    if s == [] then []
    else if IsSpace(s[0]) then SplitWs(s[1..])
    else
      var n := LeadCount(s, NotSpace);
      [s[..n]] + SplitWs(s[n..])
  }

  /** A string of whitespace only has no tokens. */
  lemma {:induction false} SplitWsBlank(s: string)
    requires forall m :: 0 <= m < |s| ==> IsSpace(s[m])
    ensures SplitWs(s) == []
    decreases |s|
  {
    if s != [] {
      SplitWsBlank(s[1..]);
    }
  }

  /** A token is split into itself. */
  lemma SplitWsToken(t: string)
    requires IsToken(t)
    ensures SplitWs(t) == [t]
  {
    var n := LeadCount(t, NotSpace);
    assert n == |t|;
    assert t[..n] == t;
  }

  /** A whitespace character separates: the tokens of `a + [c] + b` are those of `a`
      followed by those of `b`. */
  lemma {:induction false} SplitWsSeparates(a: string, c: char, b: string)
    requires IsSpace(c)
    ensures SplitWs(a + [c] + b) == SplitWs(a) + SplitWs(b)
    decreases |a|
  {
    var s := a + [c] + b;
    if a == [] {
      assert s[1..] == b;
    } else if IsSpace(a[0]) {
      assert s[1..] == a[1..] + [c] + b;
      SplitWsSeparates(a[1..], c, b);
    } else {
      var m := LeadCount(a, NotSpace);
      TokenStopsAtSpace(a, c, b);
      assert s[..m] == a[..m];
      assert s[m..] == a[m..] + [c] + b;
      SplitWsSeparates(a[m..], c, b);
    }
  }

  /** A token starting in `a` ends within `a` when a space follows `a`. */
  lemma TokenStopsAtSpace(a: string, c: char, b: string)
    requires IsSpace(c)
    ensures LeadCount(a + [c] + b, NotSpace) == LeadCount(a, NotSpace)
  {
    var s := a + [c] + b;
    assert forall k :: 0 <= k < |a| ==> s[k] == a[k];
    assert s[|a|] == c;
  }

  // ------------------------------------------------------------------
  // splitlines()
  // ------------------------------------------------------------------

  /** The length of the first line of `s`: the characters before the first boundary. */
  function LineLength(s: string): (n: nat)
    ensures n <= |s|
    ensures forall k :: 0 <= k < n ==> NotLineBreak(s[k])
    ensures n < |s| ==> IsLineBreak(s[n])
    decreases |s|
  {
    if s == [] || IsLineBreak(s[0]) then 0 else 1 + LineLength(s[1..])
  }

  /** `s.splitlines()`: the lines of `s` without their boundaries; a final boundary
      does not start an extra empty line, and the empty string has no lines. */
  function SplitLines(s: string): (r: seq<string>)
    ensures forall k :: 0 <= k < |r| ==> NoLineBreak(r[k])
    ensures r == [] <==> s == []
    decreases |s|
  {
    if s == [] then []
    else
      var n := LineLength(s);
      if n == |s| then [s]
      else
        var next := if s[n] == '\r' && n + 1 < |s| && s[n + 1] == '\n' then n + 2 else n + 1;
        [s[..n]] + SplitLines(s[next..])
  }

  /** The text made of `lines`, each followed by the terminator `eol`. */
  function UnLines(lines: seq<string>, eol: string): string {
    if lines == [] then "" else lines[0] + eol + UnLines(lines[1..], eol)
  }

  /** A line boundary of `splitlines()`: one boundary character, or the pair "\r\n". */
  predicate IsTerminator(eol: string) {
    eol == "\r\n" || (|eol| == 1 && IsLineBreak(eol[0]))
  }

  /** A last line with no boundary after it is a line of its own. */
  lemma {:induction false} SplitLinesLast(a: string)
    requires a != [] && NoLineBreak(a)
    ensures SplitLines(a) == [a]
  {
    LineLengthStops(a, "");
  }

  /** A line ended by any boundary is split off as one line; a lone "\r" is a boundary
      of its own only when no "\n" follows it. */
  lemma {:induction false} SplitLinesCons(a: string, eol: string, b: string)
    requires NoLineBreak(a) && IsTerminator(eol)
    requires eol == "\r" ==> b == [] || b[0] != '\n'
    ensures SplitLines(a + eol + b) == [a] + SplitLines(b)
  {
    var s := a + eol + b;
    assert IsLineBreak(eol[0]) && (eol + b)[0] == eol[0];
    assert s == a + (eol + b);
    LineLengthStops(a, eol + b);
    SplitLinesStep(s, |a|);
    if |eol| == 1 && b != [] {
      assert s[|a| + 1] == b[0];
    }
    assert s[..|a|] == a;
    assert s[|a| + |eol|..] == b;
  }

  /** One step of `splitlines()`: the first line ends at the first boundary
      character, and a "\r\n" there is consumed as one boundary. */
  lemma {:induction false} SplitLinesStep(s: string, n: nat)
    requires n < |s| && LineLength(s) == n
    ensures SplitLines(s) == [s[..n]] + SplitLines(s[if s[n] == '\r' && n + 1 < |s| && s[n + 1] == '\n' then n + 2 else n + 1..])
  {
    assert s != [] && n != |s|;
  }

  /** A first line with no boundary in it ends where the text after it begins, if
      that text begins with a boundary. */
  lemma {:induction false} LineLengthStops(a: string, b: string)
    requires NoLineBreak(a) && (b == [] || IsLineBreak(b[0]))
    ensures LineLength(a + b) == |a|
    decreases |a|
  {
    if a != [] {
      assert (a + b)[0] == a[0];
      assert (a + b)[1..] == a[1..] + b;
      LineLengthStops(a[1..], b);
    } else {
      assert a + b == b;
    }
  }

  /** A boundary character at the head of lines joined by `eol` is `eol`'s own. */
  lemma {:induction false} UnLinesHead(lines: seq<string>, eol: string, tail: string)
    requires forall k :: 0 <= k < |lines| ==> NoLineBreak(lines[k])
    requires NoLineBreak(tail) && IsTerminator(eol)
    ensures var b := UnLines(lines, eol) + tail;
            b != [] && IsLineBreak(b[0]) ==> b[0] == eol[0]
  {
    if lines != [] {
      var b := UnLines(lines, eol) + tail;
      assert b == lines[0] + (eol + (UnLines(lines[1..], eol) + tail));
      if lines[0] != [] {
        assert b[0] == lines[0][0];
      } else {
        assert b[0] == eol[0];
      }
    }
  }

  lemma UnLinesCons(lines: seq<string>, eol: string, tail: string)
    requires lines != []
    ensures UnLines(lines, eol) + tail == lines[0] + eol + (UnLines(lines[1..], eol) + tail)
  {
  }

  lemma ConsAssoc(lines: seq<string>, more: seq<string>)
    requires lines != []
    ensures [lines[0]] + (lines[1..] + more) == lines + more
  {
    assert lines == [lines[0]] + lines[1..];
  }

  /** Round trip: splitting text whose lines are each ended by the same boundary, and
      followed by a last line `tail` with no boundary after it (when it is not
      empty), gives those lines back, empty lines included. */
  lemma {:induction false} SplitLinesUnLines(lines: seq<string>, eol: string, tail: string)
    requires forall k :: 0 <= k < |lines| ==> NoLineBreak(lines[k])
    requires NoLineBreak(tail) && IsTerminator(eol)
    ensures SplitLines(UnLines(lines, eol) + tail) == lines + (if tail == [] then [] else [tail])
    decreases |lines|
  {
    if lines == [] {
      assert UnLines(lines, eol) + tail == tail;
      if tail != [] {
        SplitLinesLast(tail);
      }
    } else {
      var rest := UnLines(lines[1..], eol) + tail;
      UnLinesCons(lines, eol, tail);
      UnLinesHead(lines[1..], eol, tail);
      SplitLinesCons(lines[0], eol, rest);
      SplitLinesUnLines(lines[1..], eol, tail);
      ConsAssoc(lines, if tail == [] then [] else [tail]);
    }
  }
}
