/** Models of the Rust `str` operations that the decoders rely on: substring search,
    splitting on characters, concatenation, whitespace trimming, prefix stripping,
    and the "newline every w cells" layout that two of the decoders write. */
module Strings {

  datatype Option<T> = None | Some(value: T)

  predicate StartsWith(s: string, prefix: string) {
    |prefix| <= |s| && s[..|prefix|] == prefix
  }

  /** `sub` occurs in `s` at position `i`. */
  ghost predicate OccursAt(s: string, sub: string, i: int) {
    0 <= i <= |s| - |sub| && s[i..i + |sub|] == sub
  }

  /** `str::contains` with a string pattern. */
  predicate Contains(s: string, sub: string)
    decreases |s|
  {
    StartsWith(s, sub) || (|s| > 0 && Contains(s[1..], sub))
  }

  lemma {:induction false} ContainsIffOccurs(s: string, sub: string)
    ensures Contains(s, sub) <==> exists i :: OccursAt(s, sub, i)
    decreases |s|
  {
    if Contains(s, sub) {
      if StartsWith(s, sub) {
        assert OccursAt(s, sub, 0);
      } else {
        ContainsIffOccurs(s[1..], sub);
        var i :| OccursAt(s[1..], sub, i);
        assert s[1..][i..i + |sub|] == s[i + 1..i + 1 + |sub|];
        assert OccursAt(s, sub, i + 1);
      }
    }
    if exists i :: OccursAt(s, sub, i) {
      var i :| OccursAt(s, sub, i);
      if i == 0 {
        assert StartsWith(s, sub);
      } else {
        assert s[1..][i - 1..i - 1 + |sub|] == s[i..i + |sub|];
        assert OccursAt(s[1..], sub, i - 1);
        ContainsIffOccurs(s[1..], sub);
      }
    }
  }

  /** Every character of a pattern found in `s` is a character of `s`. */
  /** A text shorter than the pattern does not contain it. */
  lemma {:induction false} ContainsLonger(s: string, sub: string)
    requires |s| < |sub|
    ensures !Contains(s, sub)
    decreases |s|
  {
    if |s| > 0 {
      ContainsLonger(s[1..], sub);
    }
  }

  lemma ContainsChar(s: string, sub: string, k: nat)
    requires Contains(s, sub) && k < |sub|
    ensures sub[k] in s
  {
    ContainsIffOccurs(s, sub);
    var i :| OccursAt(s, sub, i);
    assert s[i..i + |sub|][k] == s[i + k];
  }

  /** Number of characters of `s` that belong to `seps`. */
  function CountIn(s: string, seps: set<char>): nat {
    if s == [] then 0 else (if s[0] in seps then 1 else 0) + CountIn(s[1..], seps)
  }

  /** `str::split` with a pattern matching any character of `seps`: the maximal
      separator-free pieces of `s`, empty pieces included, in order. */
  function Split(s: string, seps: set<char>): (parts: seq<string>)
    ensures |parts| >= 1
    decreases |s|
  {
    if s == [] then [""]
    else
      var rest := Split(s[1..], seps);
      if s[0] in seps then [""] + rest
      else [[s[0]] + rest[0]] + rest[1..]
  }

  /** The pieces joined back with `sep` between consecutive ones. */
  function Join(parts: seq<string>, sep: char): string {
    if parts == [] then ""
    else if |parts| == 1 then parts[0]
    else parts[0] + [sep] + Join(parts[1..], sep)
  }

  /** Concatenation of all pieces in order (`collect::<String>()`). */
  function Concat(parts: seq<string>): string {
    if parts == [] then "" else Concat(parts[..|parts| - 1]) + parts[|parts| - 1]
  }

  /** There is one more piece than there are separators: a "\r\n" pair splits into
      two separators and so leaves an empty piece between them. */
  lemma {:induction false} SplitCount(s: string, seps: set<char>)
    ensures |Split(s, seps)| == CountIn(s, seps) + 1
    decreases |s|
  {
    if s != [] {
      SplitCount(s[1..], seps);
    }
  }

  /** No piece contains a separator. */
  lemma {:induction false} SplitPiecesFree(s: string, seps: set<char>)
    ensures forall k, j :: 0 <= k < |Split(s, seps)| && 0 <= j < |Split(s, seps)[k]| ==> Split(s, seps)[k][j] !in seps
    decreases |s|
  {
    if s != [] {
      SplitPiecesFree(s[1..], seps);
    }
  }

  /** Splitting on one character and joining back with it restores the text. */
  lemma {:induction false} SplitJoin(s: string, c: char)
    ensures Join(Split(s, {c}), c) == s
    decreases |s|
  {
    if s != [] {
      SplitJoin(s[1..], c);
      var rest := Split(s[1..], {c});
      if s[0] == c {
        assert Split(s, {c}) == [""] + rest;
        assert ([""] + rest)[1..] == rest;
      } else if |rest| > 1 {
        assert Split(s, {c}) == [[s[0]] + rest[0]] + rest[1..];
        assert ([[s[0]] + rest[0]] + rest[1..])[1..] == rest[1..];
      }
    }
  }

  /** A separator-free prefix glues onto the first piece. */
  lemma {:induction false} SplitFreePrefix(p: string, r: string, seps: set<char>)
    requires forall j :: 0 <= j < |p| ==> p[j] !in seps
    ensures Split(p + r, seps) == [p + Split(r, seps)[0]] + Split(r, seps)[1..]
    decreases |p|
  {
    if p != [] {
      assert (p + r)[1..] == p[1..] + r;
      SplitFreePrefix(p[1..], r, seps);
      assert [p[0]] + (p[1..] + Split(r, seps)[0]) == p + Split(r, seps)[0];
    } else {
      assert p + r == r;
      assert Split(r, seps) == [Split(r, seps)[0]] + Split(r, seps)[1..];
      assert p + Split(r, seps)[0] == Split(r, seps)[0];
    }
  }

  /** A separator-free piece followed by a separator splits off as the first piece. */
  lemma SplitAtSep(p: string, c: char, r: string, seps: set<char>)
    requires forall j :: 0 <= j < |p| ==> p[j] !in seps
    requires c in seps
    ensures Split(p + [c] + r, seps) == [p] + Split(r, seps)
  {
    var t := [c] + r;
    assert p + [c] + r == p + t;
    SplitFreePrefix(p, t, seps);
    assert t[1..] == r;
    assert p + "" == p;
  }

  /** A separator-free text is a single piece. */
  lemma SplitFree(p: string, seps: set<char>)
    requires forall j :: 0 <= j < |p| ==> p[j] !in seps
    ensures Split(p, seps) == [p]
  {
    SplitFreePrefix(p, "", seps);
    assert p + "" == p;
  }

  /** A character that is neither the separator nor in any piece is not in the
      joined text. */
  lemma {:induction false} JoinAvoids(parts: seq<string>, sep: char, c: char)
    requires c != sep
    requires forall k :: 0 <= k < |parts| ==> c !in parts[k]
    ensures c !in Join(parts, sep)
    decreases |parts|
  {
    if |parts| > 1 {
      JoinAvoids(parts[1..], sep, c);
      assert c !in parts[0];
    } else if |parts| == 1 {
      assert c !in parts[0];
    }
  }

  /** Joining separator-free pieces and splitting again gives the pieces back. */
  lemma {:induction false} JoinSplit(parts: seq<string>, c: char)
    requires |parts| >= 1
    requires forall k :: 0 <= k < |parts| ==> c !in parts[k]
    ensures Split(Join(parts, c), {c}) == parts
    decreases |parts|
  {
    if |parts| == 1 {
      SplitFreePrefix(parts[0], "", {c});
      assert parts[0] + "" == parts[0];
    } else {
      assert forall k :: 0 <= k < |parts| - 1 ==> parts[1..][k] == parts[k + 1];
      JoinSplit(parts[1..], c);
      JoinSplitStep(parts, c);
    }
  }

  lemma JoinSplitStep(parts: seq<string>, c: char)
    requires |parts| >= 2 && c !in parts[0]
    requires Split(Join(parts[1..], c), {c}) == parts[1..]
    ensures Split(Join(parts, c), {c}) == parts
  {
    var tail := [c] + Join(parts[1..], c);
    assert Join(parts, c) == parts[0] + tail;
    SplitFreePrefix(parts[0], tail, {c});
    assert tail[1..] == Join(parts[1..], c);
    assert Split(tail, {c}) == [""] + parts[1..];
    assert parts[0] + "" == parts[0];
  }

  /** `char::is_whitespace`: the characters with the Unicode White_Space property. */
  predicate IsWhitespace(c: char) {
    c in WHITESPACE
  }

  /** U+0009 to U+000D, the space, U+0085, U+00A0, U+1680, U+2000 to U+200A,
      U+2028, U+2029, U+202F, U+205F and U+3000. */
  const WHITESPACE: set<char> := {
    '\t', '\n', '\U{B}', '\U{C}', '\r', ' ', '\U{85}', '\U{A0}', '\U{1680}',
    '\U{2000}', '\U{2001}', '\U{2002}', '\U{2003}', '\U{2004}', '\U{2005}',
    '\U{2006}', '\U{2007}', '\U{2008}', '\U{2009}', '\U{200A}',
    '\U{2028}', '\U{2029}', '\U{202F}', '\U{205F}', '\U{3000}'
  }

  /** How many whitespace characters `s` starts with. */
  function Leading(s: string): (n: nat)
    ensures n <= |s|
    decreases |s|
  {
    if s != [] && IsWhitespace(s[0]) then 1 + Leading(s[1..]) else 0
  }

  /** How many whitespace characters `s` ends with. */
  function Trailing(s: string): (n: nat)
    ensures n <= |s|
    decreases |s|
  {
    if s != [] && IsWhitespace(s[|s| - 1]) then 1 + Trailing(s[..|s| - 1]) else 0
  }

  /** `str::trim_start`: the suffix left after dropping the leading whitespace. */
  function TrimStart(s: string): string {
    s[Leading(s)..]
  }

  /** `str::trim_end`: the prefix left after dropping the trailing whitespace. */
  function TrimEnd(s: string): string {
    s[..|s| - Trailing(s)]
  }

  /** `str::trim`: the text between the leading and the trailing whitespace. */
  function Trim(s: string): string {
    TrimEnd(TrimStart(s))
  }

  /** The leading run is whitespace, and it stops at a character that is not. */
  lemma {:induction false} LeadingRun(s: string, k: nat)
    requires k <= Leading(s) && k < |s|
    ensures k < Leading(s) ==> IsWhitespace(s[k])
    ensures k == Leading(s) ==> !IsWhitespace(s[k])
    decreases k
  {
    if k > 0 {
      LeadingRun(s[1..], k - 1);
    }
  }

  /** The trailing run is whitespace, and it stops at a character that is not. */
  lemma {:induction false} TrailingRun(s: string, k: nat)
    requires |s| - Trailing(s) <= k + 1 && k < |s|
    ensures |s| - Trailing(s) <= k ==> IsWhitespace(s[k])
    ensures k + 1 == |s| - Trailing(s) ==> !IsWhitespace(s[k])
    decreases |s|
  {
    if k < |s| - 1 {
      TrailingRun(s[..|s| - 1], k);
    }
  }

  /** The trimmed text is the part of `s` from `start` on, neither starting nor
      ending with whitespace, and every character of `s` that is not whitespace
      lies inside it. */
  lemma TrimSpan(s: string, k: nat)
    requires k < |s|
    ensures var start := Leading(s);
      start + |Trim(s)| <= |s| && Trim(s) == s[start..start + |Trim(s)|]
    ensures !IsWhitespace(s[k]) ==> Leading(s) <= k < Leading(s) + |Trim(s)|
  {
    var start := Leading(s);
    var t := TrimStart(s);
    var r := Trim(s);
    assert s[start..][..|r|] == s[start..start + |r|];
    if !IsWhitespace(s[k]) {
      if k < start {
        LeadingRun(s, k);
      } else if start + |r| <= k {
        assert s[k] == t[k - start];
        TrailingRun(t, k - start);
      }
    }
  }

  /** `p` written `k` times. */
  function Repeat(p: string, k: nat): string {
    if k == 0 then "" else p + Repeat(p, k - 1)
  }

  /** `str::trim_start_matches` with a string pattern: removes every leading
      repetition of `p`, not only the first. */
  function TrimPrefixes(s: string, p: string): string
    requires p != ""
    decreases |s|
  {
    if StartsWith(s, p) then TrimPrefixes(s[|p|..], p) else s
  }

  /** What `TrimPrefixes` removed is a whole number of copies of the pattern,
      and what it left does not start with the pattern. */
  lemma {:induction false} TrimPrefixesRepeat(s: string, p: string)
    requires p != ""
    ensures exists k: nat :: s == Repeat(p, k) + TrimPrefixes(s, p)
    ensures !StartsWith(TrimPrefixes(s, p), p)
    decreases |s|
  {
    var r := TrimPrefixes(s, p);
    if StartsWith(s, p) {
      TrimPrefixesRepeat(s[|p|..], p);
      var k: nat :| s[|p|..] == Repeat(p, k) + r;
      StartsWithSplit(s, p);
      RepeatSucc(p, k, r);
      assert s == Repeat(p, k + 1) + r;
    } else {
      assert s == Repeat(p, 0) + r;
    }
  }

  lemma StartsWithSplit(s: string, p: string)
    requires StartsWith(s, p)
    ensures s == p + s[|p|..]
  {
    assert s == s[..|p|] + s[|p|..];
  }

  /** Every leading copy of the pattern is removed: `n` copies before text that
      does not start with the pattern leave exactly that text. */
  lemma {:induction false} TrimRepeated(p: string, n: nat, d: string)
    requires p != "" && !StartsWith(d, p)
    ensures TrimPrefixes(Repeat(p, n) + d, p) == d
    decreases n
  {
    if n > 0 {
      var s := Repeat(p, n) + d;
      assert s == p + (Repeat(p, n - 1) + d);
      assert StartsWith(s, p) && s[|p|..] == Repeat(p, n - 1) + d;
      TrimRepeated(p, n - 1, d);
    }
  }

  lemma RepeatStarts(p: string, n: nat, d: string)
    requires n > 0
    ensures StartsWith(Repeat(p, n) + d, p)
  {
    assert Repeat(p, n) + d == p + (Repeat(p, n - 1) + d);
  }

  lemma RepeatSucc(p: string, k: nat, r: string)
    ensures p + (Repeat(p, k) + r) == Repeat(p, k + 1) + r
  {
    assert Repeat(p, k + 1) == p + Repeat(p, k);
  }

  lemma {:induction false} MulAtLeast(k: int, w: int)
    requires k >= 1 && w > 0
    ensures k * w >= w
    decreases k
  {
    if k > 1 {
      MulAtLeast(k - 1, w);
      assert k * w == (k - 1) * w + w;
    }
  }

  lemma ModUnique(x: int, q: int, r: int, w: int)
    requires w > 0 && 0 <= r < w && x == q * w + r
    ensures x % w == r
  {
    var q0, r0 := x / w, x % w;
    assert x == q0 * w + r0;
    if q > q0 {
      MulAtLeast(q - q0, w);
    } else if q < q0 {
      MulAtLeast(q0 - q, w);
    }
  }

  lemma ModAddDivisor(n: nat, w: nat)
    requires w > 0
    ensures (w + n) % w == n % w
  {
    var q, r := n / w, n % w;
    assert n == q * w + r;
    assert w + n == (q + 1) * w + r;
    ModUnique(w + n, q + 1, r, w);
  }

  /** The line break written before the cell with count `i` when cells are laid
      out `w` to a line: a newline when `i` is a positive multiple of `w`. */
  function Break(i: nat, w: nat): (r: string)
    ensures r == "" || r == "\n"
    decreases i
  {
    if w == 0 || i < w then "" else if i == w then "\n" else Break(i - w, w)
  }

  /** For a positive width this is the remainder test the loops write:
      `i > 0 && i % w == 0`. */
  lemma {:induction false} BreakMod(i: nat, w: nat)
    requires w > 0
    ensures Break(i, w) == (if i > 0 && i % w == 0 then "\n" else "")
    decreases i
  {
    if i < w {
      ModUnique(i, 0, i, w);
    } else if i == w {
      ModUnique(i, 1, 0, w);
    } else {
      BreakMod(i - w, w);
      ModAddDivisor(i - w, w);
    }
  }

  /** The cells as a loop writes them that keeps a counter starting at `off` and
      puts `Break(counter, w)` before each cell. */
  function Laid(cells: seq<string>, w: nat, off: nat): (r: seq<string>)
    ensures |r| == |cells|
  {
    seq(|cells|, i requires 0 <= i < |cells| => Break(off + i, w) + cells[i])
  }

  /** The text of such a loop whose counter starts at 0. */
  function Grouped(cells: seq<string>, w: nat): string {
    Concat(Laid(cells, w, 0))
  }

  /** Reference layout: lines of `w` cells each, the last one possibly shorter,
      joined by single newlines, with no leading or trailing newline. */
  function Lines(cells: seq<string>, w: nat): string
    requires w > 0
    decreases |cells|
  {
    if |cells| <= w then Concat(cells) else Concat(cells[..w]) + "\n" + Lines(cells[w..], w)
  }

  lemma {:induction false} ConcatAppend(x: seq<string>, y: seq<string>)
    ensures Concat(x + y) == Concat(x) + Concat(y)
    decreases |y|
  {
    if y == [] {
      assert x + y == x;
    } else {
      var y', last := y[..|y| - 1], y[|y| - 1];
      assert (x + y)[..|x + y| - 1] == x + y';
      ConcatAppend(x, y');
      var cx, cy := Concat(x), Concat(y');
      assert cx + cy + last == cx + (cy + last);
    }
  }

  lemma ConcatCons(c: string, y: seq<string>)
    ensures Concat([c] + y) == c + Concat(y)
  {
    ConcatAppend([c], y);
    assert Concat([c]) == c by {
      assert [c][..0] == [];
    }
  }

  /** One more cell: its break, then the cell. This is the loop's step. */
  lemma GroupedSnoc(cells: seq<string>, x: string, w: nat)
    ensures Grouped(cells + [x], w) == Grouped(cells, w) + Break(|cells|, w) + x
  {
    var l := Laid(cells + [x], w, 0);
    assert l == Laid(cells, w, 0) + [Break(|cells|, w) + x];
    assert l[..|l| - 1] == Laid(cells, w, 0);
    var g := Grouped(cells, w);
    assert g + (Break(|cells|, w) + x) == g + Break(|cells|, w) + x;
  }

  lemma LaidAppend(a: seq<string>, b: seq<string>, w: nat, off: nat)
    ensures Laid(a + b, w, off) == Laid(a, w, off) + Laid(b, w, off + |a|)
  {
    assert forall i :: |a| <= i < |a + b| ==> (a + b)[i] == b[i - |a|];
  }

  /** Within the first line no cell gets a break. */
  lemma LaidShort(c: seq<string>, w: nat)
    requires 0 < w && |c| <= w
    ensures Laid(c, w, 0) == c
  {
    forall i | 0 <= i < |c|
      ensures Laid(c, w, 0)[i] == c[i]
    {
      assert Break(i, w) == "";
    }
  }

  lemma BreakShift(n: nat, w: nat)
    requires 0 < w && 0 < n
    ensures Break(w + n, w) == Break(n, w)
  {
  }

  /** Past the first cell, a counter shifted by `w` gives the same breaks. */
  lemma LaidShift(t: seq<string>, w: nat)
    requires 0 < w
    ensures Laid(t, w, w + 1) == Laid(t, w, 1)
  {
    forall i | 0 <= i < |t|
      ensures Laid(t, w, w + 1)[i] == Laid(t, w, 1)[i]
    {
      BreakShift(1 + i, w);
    }
  }

  lemma LaidHead(b: seq<string>, w: nat, off: nat)
    requires b != []
    ensures Laid(b, w, off) == [Break(off, w) + b[0]] + Laid(b[1..], w, off + 1)
  {
    assert b == [b[0]] + b[1..];
    LaidAppend([b[0]], b[1..], w, off);
  }

  lemma ConcatNewlineHead(h: string, t: seq<string>)
    ensures Concat(["\n" + h] + t) == "\n" + Concat([h] + t)
  {
    ConcatCons("\n" + h, t);
    ConcatCons(h, t);
    var rest := Concat(t);
    assert ("\n" + h) + rest == "\n" + (h + rest);
  }

  /** Shifting the counter by `w` adds one newline, before the first cell. */
  lemma GroupedNextLine(b: seq<string>, w: nat)
    requires 0 < w && b != []
    ensures Concat(Laid(b, w, w)) == "\n" + Grouped(b, w)
  {
    LaidHead(b, w, w);
    LaidHead(b, w, 0);
    LaidShift(b[1..], w);
    assert Break(w, w) == "\n";
    assert Break(0, w) + b[0] == b[0];
    ConcatNewlineHead(b[0], Laid(b[1..], w, 1));
  }

  /** Past the first `w` cells, the layout is the first line, a newline, and the
      layout of the remaining cells. */
  lemma GroupedFirstLine(cells: seq<string>, w: nat)
    requires 0 < w < |cells|
    ensures Grouped(cells, w) == Concat(cells[..w]) + ("\n" + Grouped(cells[w..], w))
  {
    var head, rest := cells[..w], cells[w..];
    assert cells == head + rest;
    LaidAppend(head, rest, w, 0);
    ConcatAppend(Laid(head, w, 0), Laid(rest, w, w));
    LaidShort(head, w);
    GroupedNextLine(rest, w);
  }

  /** The counter-driven layout is exactly `w` cells per line. */
  lemma {:induction false} GroupedIsLines(cells: seq<string>, w: nat)
    requires w > 0
    ensures Grouped(cells, w) == Lines(cells, w)
    decreases |cells|
  {
    if |cells| <= w {
      LaidShort(cells, w);
    } else {
      GroupedFirstLine(cells, w);
      GroupedIsLines(cells[w..], w);
      var a, l := Concat(cells[..w]), Lines(cells[w..], w);
      assert a + ("\n" + l) == a + "\n" + l;
    }
  }

  /** `Iterator::position` and `str::find` for one element: the index of the
      first occurrence of `x`, or `|xs|` when there is none. */
  function FirstIndex<X(==)>(xs: seq<X>, x: X): (k: nat)
    ensures k <= |xs| && x !in xs[..k]
    ensures k < |xs| ==> xs[k] == x
    decreases |xs|
  {
    if xs == [] || xs[0] == x then 0
    else
      var k := FirstIndex(xs[1..], x);
      assert xs[..k + 1] == [xs[0]] + xs[1..][..k];
      k + 1
  }

  /** The first piece of a split is the text before the first separator. */
  lemma {:induction false} SplitFirst(s: string, c: char)
    ensures Split(s, {c})[0] == s[..FirstIndex(s, c)]
    decreases |s|
  {
    if s != [] && s[0] != c {
      SplitFirst(s[1..], c);
      assert s[..FirstIndex(s, c)] == [s[0]] + s[1..][..FirstIndex(s[1..], c)];
    }
  }

  /** Text that neither starts nor ends with whitespace, as `str::trim` leaves it. */
  predicate Trimmed(s: string) {
    s == "" || (!IsWhitespace(s[0]) && !IsWhitespace(s[|s| - 1]))
  }

  /** Trimming leaves no whitespace at either end. */
  lemma TrimEnds(s: string)
    ensures Trimmed(Trim(s))
  {
    var t := TrimStart(s);
    var r := Trim(s);
    if r != "" {
      LeadingRun(s, Leading(s));
      assert r[0] == s[Leading(s)];
      TrailingRun(t, |t| - Trailing(t) - 1);
      assert r[|r| - 1] == t[|t| - Trailing(t) - 1];
    }
  }

  /** Trimming removes only whitespace: any other character is in the trimmed
      text exactly when it is in the text. */
  lemma TrimKeeps(s: string, c: char)
    requires !IsWhitespace(c)
    ensures c in Trim(s) <==> c in s
  {
    if c in s {
      var k :| 0 <= k < |s| && s[k] == c;
      TrimSpan(s, k);
      assert Trim(s)[k - Leading(s)] == c;
    }
    if c in Trim(s) {
      var k :| 0 <= k < |Trim(s)| && Trim(s)[k] == c;
      TrimSpan(s, 0);
      assert s[Leading(s) + k] == c;
    }
  }
}
